/**
 * The alias context: the table of type aliases that string and forward-reference
 * hints are resolved against, and its scoped activation.
 *
 * A Python dict keeps insertion order and `dict.update` keeps the position of a
 * key that is already present, so the table is an association list with
 * distinct names rather than a Dafny map.
 */
module Aliases {
  import opened Types

  type Table = seq<(string, Ty)>

  function Names(t: Table): seq<string>
  {
    seq(|t|, i requires 0 <= i < |t| => t[i].0)
  }

  /** No name is bound twice, as in a dict. */
  predicate DistinctNames(t: Table)
  {
    forall i, j :: 0 <= i < j < |t| ==> t[i].0 != t[j].0
  }

  predicate Bound(t: Table, name: string)
  {
    exists i :: 0 <= i < |t| && t[i].0 == name
  }

  /** `name in table` and `table[name]`. */
  function Find(t: Table, name: string): (r: Option<Ty>)
    ensures r.Some? <==> Bound(t, name)
    ensures r.Some? ==> exists i :: 0 <= i < |t| && t[i] == (name, r.value)
  {
    if t == [] then None
    else if t[0].0 == name then Some(t[0].1)
    else
      var r := Find(t[1..], name);
      assert forall i :: 1 <= i < |t| ==> t[i] == t[1..][i - 1];
      r
  }

  /** `table[name] = ty`: overwrite in place if bound, otherwise append. */
  function Update(t: Table, name: string, ty: Ty): (r: Table)
  {
    if t == [] then [(name, ty)]
    else if t[0].0 == name then [(name, ty)] + t[1..]
    else [t[0]] + Update(t[1..], name, ty)
  }

  /** `table.update(bindings)`. */
  function UpdateAll(t: Table, bindings: Table): Table
    decreases |bindings|
  {
    if bindings == [] then t
    else UpdateAll(Update(t, bindings[0].0, bindings[0].1), bindings[1..])
  }

  /** After `table[name] = ty`, `name` means `ty` and every other name keeps its meaning. */
  lemma {:induction false} FindUpdate(t: Table, name: string, ty: Ty, other: string)
    ensures Find(Update(t, name, ty), other) == if other == name then Some(ty) else Find(t, other)
    decreases |t|
  {
    if t != [] && t[0].0 != name {
      FindUpdate(t[1..], name, ty, other);
      var u := Update(t[1..], name, ty);
      assert ([t[0]] + u)[1..] == u;
    }
  }

  /** Update keeps names distinct, and never reorders or drops an existing binding. */
  lemma {:induction false} UpdateNames(t: Table, name: string, ty: Ty)
    requires DistinctNames(t)
    ensures DistinctNames(Update(t, name, ty))
    ensures Bound(t, name) ==> |Update(t, name, ty)| == |t|
    ensures !Bound(t, name) ==> Update(t, name, ty) == t + [(name, ty)]
    ensures forall i :: 0 <= i < |t| ==> Update(t, name, ty)[i].0 == t[i].0
    decreases |t|
  {
    if t == [] {
    } else if t[0].0 == name {
      var u := Update(t, name, ty);
      assert forall i :: 1 <= i < |t| ==> u[i] == t[i];
      assert !Bound(t[1..], name) by {
        forall i | 0 <= i < |t[1..]| ensures t[1..][i].0 != name {
          assert t[1..][i] == t[i + 1];
        }
      }
    } else {
      DistinctTail(t);
      UpdateNames(t[1..], name, ty);
      UpdateNamesPast(t, name, ty);
    }
  }

  /** What `UpdateNames` states about one table. */
  ghost predicate UpdatedNames(t: Table, name: string, ty: Ty)
  {
    && DistinctNames(Update(t, name, ty))
    && (Bound(t, name) ==> |Update(t, name, ty)| == |t|)
    && (!Bound(t, name) ==> Update(t, name, ty) == t + [(name, ty)])
    && (forall i :: 0 <= i < |t| ==> Update(t, name, ty)[i].0 == t[i].0)
  }

  /** Update passes over a first binding of another name. */
  lemma UpdateNamesPast(t: Table, name: string, ty: Ty)
    requires DistinctNames(t) && t != [] && t[0].0 != name
    requires UpdatedNames(t[1..], name, ty)
    ensures UpdatedNames(t, name, ty)
  {
    var rest := t[1..];
    var u' := Update(rest, name, ty);
    var u := [t[0]] + u';
    assert Bound(t, name) <==> Bound(rest, name) by {
      if Bound(t, name) {
        var k :| 0 <= k < |t| && t[k].0 == name;
        assert rest[k - 1] == t[k];
      }
      if Bound(rest, name) {
        var k :| 0 <= k < |rest| && rest[k].0 == name;
        assert t[k + 1] == rest[k];
      }
    }
    assert forall i :: 0 <= i < |t| ==> u[i].0 == t[i].0 by {
      forall i | 0 <= i < |t| ensures u[i].0 == t[i].0 {
        if i > 0 { assert u[i] == u'[i - 1] && t[i] == rest[i - 1]; }
      }
    }
    assert forall k :: 0 <= k < |u'| ==> u'[k].0 != t[0].0 by {
      forall k | 0 <= k < |u'| ensures u'[k].0 != t[0].0 {
        if k < |rest| {
          assert rest[k] == t[k + 1];
        }
      }
    }
    DistinctCons(t[0], u');
  }

  /** Dropping the first binding keeps names distinct. */
  lemma DistinctTail(t: Table)
    requires DistinctNames(t) && t != []
    ensures DistinctNames(t[1..])
  {
    var rest := t[1..];
    forall i, j | 0 <= i < j < |rest| ensures rest[i].0 != rest[j].0 {
      assert rest[i] == t[i + 1] && rest[j] == t[j + 1];
    }
  }

  /** A binding whose name the table does not use, put in front of it, keeps names distinct. */
  lemma DistinctCons(h: (string, Ty), u: Table)
    requires DistinctNames(u)
    requires forall k :: 0 <= k < |u| ==> u[k].0 != h.0
    ensures DistinctNames([h] + u)
  {
    var w := [h] + u;
    forall i, j | 0 <= i < j < |w| ensures w[i].0 != w[j].0 {
      assert w[j] == u[j - 1];
      if i > 0 {
        assert w[i] == u[i - 1];
      }
    }
  }

  /**
   * Shadowing: after `table.update(bindings)`, a name bound by `bindings` means
   * what `bindings` says and every other name keeps its old meaning.
   */
  lemma {:induction false} FindUpdateAll(t: Table, bindings: Table, name: string)
    requires DistinctNames(bindings)
    ensures Find(UpdateAll(t, bindings), name) ==
            if Bound(bindings, name) then Find(bindings, name) else Find(t, name)
    decreases |bindings|
  {
    if bindings != [] {
      var b := bindings[0];
      var rest := bindings[1..];
      assert DistinctNames(rest) by {
        forall i, j | 0 <= i < j < |rest| ensures rest[i].0 != rest[j].0 {
          assert rest[i] == bindings[i + 1] && rest[j] == bindings[j + 1];
        }
      }
      FindUpdateAll(Update(t, b.0, b.1), rest, name);
      FindUpdate(t, b.0, b.1, name);
      assert Bound(bindings, name) <==> (b.0 == name || Bound(rest, name)) by {
        if Bound(bindings, name) && b.0 != name {
          var k :| 0 <= k < |bindings| && bindings[k].0 == name;
          assert rest[k - 1] == bindings[k];
        }
        if Bound(rest, name) {
          var k :| 0 <= k < |rest| && rest[k].0 == name;
          assert bindings[k + 1] == rest[k];
        }
      }
      if b.0 == name {
        assert !Bound(rest, name) by {
          forall k | 0 <= k < |rest| ensures rest[k].0 != name {
            assert rest[k] == bindings[k + 1];
          }
        }
      } else if Bound(rest, name) {
        assert Find(bindings, name) == Find(rest, name);
      }
    }
  }

  /**
   * `validation_aliases(**aliases)` (typing_validation/validation.py:71-92): the
   * process-wide table, and the save/extend/restore discipline of the context manager.
   */
  class AliasContext {
    var table: Table

    /** At import time the table is empty. */
    constructor ()
      ensures table == []
    {
      table := [];
    }

    /** Entering the scope: the outer table is saved and a copy of it is extended. */
    method Enter(bindings: Table) returns (outer: Table)
      modifies this
      ensures outer == old(table)
      ensures table == UpdateAll(old(table), bindings)
    {
      outer := table;
      table := UpdateAll(table, bindings);
    }

    /** Leaving the scope, normally or by an exception: the saved table is restored. */
    method Exit(outer: Table)
      modifies this
      ensures table == outer
    {
      table := outer;
    }
  }
}
