/// The environment `lenv`: a flat table of symbol names and values kept as
/// two parallel arrays, with no parent link. `Table` is its contents as a
/// value; `Env` is the object whose arrays `lenv_get` scans and `lenv_put`
/// updates in place.
module Environment {
  import opened Values

  /** The contents of an `lenv`: `syms[i]` is bound to `vals[i]`. */
  datatype Table = Table(syms: seq<string>, vals: seq<Value>)
  {
    /** The arrays are parallel and no name occurs twice. */
    ghost predicate Valid()
    {
      |syms| == |vals| && Distinct(syms)
    }
  }

  ghost predicate Distinct(s: seq<string>)
  {
    forall i, j :: 0 <= i < j < |s| ==> s[i] != s[j]
  }

  /** `lenv_new`: no bindings. */
  const EMPTY: Table := Table([], [])

  /** The linear search of `lenv_get` and `lenv_put`: the first index holding
      `k`, or `|s|` when there is none. */
  function IndexOf(s: seq<string>, k: string): (i: nat)
    ensures i <= |s|
    ensures i < |s| ==> s[i] == k
    ensures forall j :: 0 <= j < i ==> s[j] != k
  {
    if s == [] then 0
    else if s[0] == k then 0
    else 1 + IndexOf(s[1..], k)
  }

  /** `lenv_get`: a copy of the value bound to `k`, or the "unbound symbol!"
      error when no entry has that name. */
  function Lookup(t: Table, k: string): (r: Value)
    requires t.Valid()
    ensures k !in t.syms ==> r == Err(UNBOUND_SYMBOL)
    ensures forall i :: 0 <= i < |t.syms| && t.syms[i] == k ==> r == t.vals[i]
  {
    var i := IndexOf(t.syms, k);
    if i < |t.syms| then Copy(t.vals[i]) else Err(UNBOUND_SYMBOL)
  }

  /** `lenv_put`: the slot of an existing name gets a copy of `v`; a new
      name is appended with a copy of `v`. Names stay pairwise distinct. */
  function Bind(t: Table, k: string, v: Value): (r: Table)
    requires t.Valid()
    ensures r.Valid()
  {
    var i := IndexOf(t.syms, k);
    if i < |t.syms| then
      Table(t.syms[i := k], t.vals[i := Copy(v)])
    else
      assert forall j :: 0 <= j < |t.syms| ==> t.syms[j] != k;
      Table(t.syms + [k], t.vals + [Copy(v)])
  }

  /** What `lenv_put` does to the arrays: rebinding an existing name replaces
      that one slot and keeps the number of entries and every other entry; a
      new name is appended at index `count`, leaving the earlier entries as
      they were. */
  lemma BindShape(t: Table, k: string, v: Value)
    requires t.Valid()
    ensures var r := Bind(t, k, v);
            && (k in t.syms ==> r.syms == t.syms && |r.vals| == |t.vals|)
            && (k in t.syms ==> forall i :: 0 <= i < |t.syms| && t.syms[i] == k ==> r.vals[i] == v)
            && (k in t.syms ==> forall i :: 0 <= i < |t.syms| && t.syms[i] != k ==> r.vals[i] == t.vals[i])
            && (k !in t.syms ==> |r.syms| == |t.syms| + 1 && r.syms[..|t.syms|] == t.syms && r.syms[|t.syms|] == k)
            && (k !in t.syms ==> r.vals[..|t.vals|] == t.vals && r.vals[|t.vals|] == v)
  {
    if k in t.syms {
      var i := IndexOf(t.syms, k);
      forall j | 0 <= j < |t.syms| && t.syms[j] == k ensures j == i {
        assert Distinct(t.syms);
      }
    }
  }

  /** After `lenv_put(e, k, v)`, `lenv_get(e, k)` yields `v`, and every other
      name keeps the value it had. */
  lemma LookupBind(t: Table, k: string, v: Value, k': string)
    requires t.Valid()
    ensures Lookup(Bind(t, k, v), k) == v
    ensures k' != k ==> Lookup(Bind(t, k, v), k') == Lookup(t, k')
  {
    var r := Bind(t, k, v);
    BindShape(t, k, v);
    if k in t.syms {
      var i := IndexOf(t.syms, k);
      assert r.syms[i] == k && r.vals[i] == v;
      if k' in t.syms {
        var j := IndexOf(t.syms, k');
        if k' != k {
          assert r.syms[j] == k' && r.vals[j] == t.vals[j];
        }
      }
    } else {
      assert r.syms[|t.syms|] == k;
      if k' in t.syms {
        var j := IndexOf(t.syms, k');
        assert r.syms[j] == k' && r.vals[j] == t.vals[j];
      } else if k' != k {
        assert k' !in r.syms by {
          assert r.syms == t.syms + [k];
        }
      }
    }
  }

  /** Binding the names `ks` to the values `vs` one after the other, in index
      order, as `builtin_def` and `lenv_add_builtins` do. */
  function BindAll(t: Table, ks: seq<string>, vs: seq<Value>): (r: Table)
    requires t.Valid() && |ks| == |vs|
    ensures r.Valid()
    decreases |ks|
  {
    if ks == [] then t
    else Bind(BindAll(t, ks[..|ks| - 1], vs[..|vs| - 1]), ks[|ks| - 1], vs[|vs| - 1])
  }

  /** Binding one more name extends the bindings made so far. */
  lemma BindAllSnoc(t: Table, ks: seq<string>, vs: seq<Value>, i: nat)
    requires t.Valid() && |ks| == |vs| && i < |ks|
    ensures BindAll(t, ks[..i + 1], vs[..i + 1]) == Bind(BindAll(t, ks[..i], vs[..i]), ks[i], vs[i])
  {
    assert ks[..i + 1][..i] == ks[..i] && vs[..i + 1][..i] == vs[..i];
  }

  /** The last index holding `k`. */
  function LastIndexOf(s: seq<string>, k: string): (i: nat)
    requires k in s
    ensures i < |s| && s[i] == k
    ensures forall j :: i < j < |s| ==> s[j] != k
  {
    if s[|s| - 1] == k then |s| - 1
    else
      assert k in s[..|s| - 1];
      LastIndexOf(s[..|s| - 1], k)
  }

  /** After binding `ks` to `vs` in order, a name bound more than once holds
      its last value and a name not among `ks` is looked up as before. */
  lemma {:induction false} LookupBindAll(t: Table, ks: seq<string>, vs: seq<Value>, k: string)
    requires t.Valid() && |ks| == |vs|
    ensures k !in ks ==> Lookup(BindAll(t, ks, vs), k) == Lookup(t, k)
    ensures k in ks ==> Lookup(BindAll(t, ks, vs), k) == vs[LastIndexOf(ks, k)]
    decreases |ks|
  {
    if ks != [] {
      var n := |ks| - 1;
      var ks', vs' := ks[..n], vs[..n];
      var prev := BindAll(t, ks', vs');
      assert BindAll(t, ks, vs) == Bind(prev, ks[n], vs[n]);
      LookupBindAll(t, ks', vs', k);
      LookupBind(prev, ks[n], vs[n], k);
      if ks[n] != k {
        LastIndexOfInit(ks, k);
      }
    }
  }

  /** When the last name is not `k`, `k` occurs in the prefix exactly where
      it occurs in the whole sequence. */
  lemma LastIndexOfInit(ks: seq<string>, k: string)
    requires ks != [] && ks[|ks| - 1] != k
    ensures k in ks <==> k in ks[..|ks| - 1]
    ensures k in ks ==> LastIndexOf(ks, k) == LastIndexOf(ks[..|ks| - 1], k)
  {
    assert ks == ks[..|ks| - 1] + [ks[|ks| - 1]];
  }

  /** Binding distinct names into the empty table yields exactly the parallel
      arrays of those names and values, in order. */
  lemma {:induction false} BindAllFresh(ks: seq<string>, vs: seq<Value>)
    requires |ks| == |vs| && Distinct(ks)
    ensures BindAll(EMPTY, ks, vs) == Table(ks, vs)
    decreases |ks|
  {
    if ks != [] {
      var n := |ks| - 1;
      var ks', vs' := ks[..n], vs[..n];
      DistinctLast(ks);
      BindAllFresh(ks', vs');
      var r := Bind(Table(ks', vs'), ks[n], vs[n]);
      BindShape(Table(ks', vs'), ks[n], vs[n]);
      assert r.syms == ks by {
        assert r.syms == ks' + [ks[n]];
      }
      assert r.vals == vs by {
        assert r.vals == vs' + [vs[n]];
      }
    }
  }

  /** Dropping the last name of a distinct sequence leaves it distinct, and
      the dropped name does not occur in the rest. */
  lemma DistinctLast(ks: seq<string>)
    requires ks != [] && Distinct(ks)
    ensures Distinct(ks[..|ks| - 1]) && ks[|ks| - 1] !in ks[..|ks| - 1]
  {
    var n := |ks| - 1;
    forall i, j | 0 <= i < j < n ensures ks[..n][i] != ks[..n][j] {
      assert ks[..n][i] == ks[i] && ks[..n][j] == ks[j];
    }
    forall i | 0 <= i < n ensures ks[..n][i] != ks[n] {
      assert ks[..n][i] == ks[i];
    }
  }

  /** An `lenv` whose arrays `lenv_get` scans and `lenv_put` updates. The
      field `count` of the C structure is the common length of the arrays. */
  class Env {
    var syms: seq<string>
    var vals: seq<Value>

    ghost predicate Valid()
      reads this
    {
      Model().Valid()
    }

    /** The bindings the environment holds. */
    function Model(): Table
      reads this
    {
      Table(syms, vals)
    }

    /** `lenv_new`. */
    constructor ()
      ensures Valid() && Model() == EMPTY
    {
      syms := [];
      vals := [];
    }

    /** `lenv_get`: scans the names in index order and returns a copy of the
        value of the first match, or the "unbound symbol!" error. */
    method Get(k: string) returns (r: Value)
      requires Valid()
      ensures r == Lookup(Model(), k)
      ensures k !in syms ==> r == Err(UNBOUND_SYMBOL)
    {
      for i := 0 to |syms|
        invariant forall j :: 0 <= j < i ==> syms[j] != k
      {
        if syms[i] == k {
          return Copy(vals[i]);
        }
      }
      return Err(UNBOUND_SYMBOL);
    }

    /** `lenv_put`: overwrites the slot of an existing name with a copy of
        `v`, or grows both arrays by one entry for a new name. */
    method Put(k: string, v: Value)
      requires Valid()
      modifies this
      ensures Valid()
      ensures Model() == Bind(old(Model()), k, v)
    {
      for i := 0 to |syms|
        invariant forall j :: 0 <= j < i ==> syms[j] != k
      {
        if syms[i] == k {
          vals := vals[i := Copy(v)];
          syms := syms[i := k];
          return;
        }
      }
      vals := vals + [Copy(v)];
      syms := syms + [k];
    }
  }
}
