/**
  Trigger grouping: `disjointTrigger` maps each trigger id to its parent (the
  trigger named by its `link` field, or itself when the link is `<none>`), and
  `findRep` follows parents to a fixed point, redirecting every value it passed
  straight at that fixed point on the way back (path compression).

  The object is keyed by property keys, so the value `undefined` reads and
  writes the key "undefined"; a missing key reads as `undefined`. A chain that
  never reaches a fixed point makes the source recurse without bound; here it
  is `None`.
 */
module UnionFind {
  import opened Wrappers
  import opened JsText

  /** `disjointTrigger`, by property key. */
  type Parents = map<string, Val>

  function Key(v: Val): string
  {
    ToStr(v)
  }

  /** `disjointTrigger[v]`. */
  function Get(p: Parents, v: Val): Val
  {
    if Key(v) in p then p[Key(v)] else Undef
  }

  /** A fixed point of the parent map: `disjointTrigger[v] === v`. */
  predicate IsRoot(p: Parents, v: Val)
  {
    Get(p, v) == v
  }

  /** What a call of `findRep` leaves behind: its result and the compressed parent map. */
  datatype Found = Found(rep: Val, parents: Parents)

  lemma {:induction false} GetInValues(p: Parents, v: Val)
    ensures Get(p, v) in p.Values + {Undef}
  {
    if Key(v) in p {
      assert p[Key(v)] in p.Values;
    }
  }

  /**
    `findRep(v)` with the values already on the recursion stack in `visited`.
    Meeting one of them again means the recursion would never end.
   */
  function FindFrom(p: Parents, v: Val, visited: set<Val>, U: set<Val>): Option<Found>
    requires v in U && p.Values + {Undef} <= U
    decreases U - visited
  {
    if IsRoot(p, v) then Some(Found(v, p))
    else if v in visited then None
    else
      GetInValues(p, v);
      match FindFrom(p, Get(p, v), visited + {v}, U)
      case None => None
      case Some(f) => Some(Found(f.rep, f.parents[Key(v) := f.rep]))
  }

  /** `findRep(v)` on the parent map `p`; `None` when the recursion never ends. */
  function FindRep(p: Parents, v: Val): (r: Option<Found>)
    ensures r.Some? <==> HasRoot(p, v)
    ensures r.Some? ==> RootOf(p, v, r.value.rep)
  {
    FindFromTerminates(p, v);
    FindFrom(p, v, {}, p.Values + {Undef, v})
  }

  /** The representative alone, as later calls would see it. */
  function Rep(p: Parents, v: Val): Option<Val>
  {
    match FindRep(p, v)
    case None => None
    case Some(f) => Some(f.rep)
  }

  // ------------------------------------------------------ reference model

  /** The value reached from `v` after `n` parent steps. */
  function Iter(p: Parents, v: Val, n: nat): Val
    decreases n
  {
    if n == 0 then v else Iter(p, Get(p, v), n - 1)
  }

  /** Some number of parent steps from `v` reaches a fixed point. */
  ghost predicate HasRoot(p: Parents, v: Val)
  {
    exists n: nat :: IsRoot(p, Iter(p, v, n))
  }

  /** `r` is the fixed point that the parent chain from `v` reaches. */
  ghost predicate RootOf(p: Parents, v: Val, r: Val)
  {
    IsRoot(p, r) && exists n: nat :: Iter(p, v, n) == r
  }

  /** The keys of the first `n` values on the chain from `v`. */
  function PathKeys(p: Parents, v: Val, n: nat): set<string>
    decreases n
  {
    if n == 0 then {} else {Key(v)} + PathKeys(p, Get(p, v), n - 1)
  }

  /** The parent map after pointing the first `n` values on the chain from `v` at `r`. */
  function Compress(p: Parents, v: Val, n: nat, r: Val): Parents
    decreases n
  {
    if n == 0 then p else Compress(p, Get(p, v), n - 1, r)[Key(v) := r]
  }

  // ------------------------------------------------------ chain lemmas

  lemma {:induction false} IterAdd(p: Parents, v: Val, a: nat, b: nat)
    ensures Iter(p, v, a + b) == Iter(p, Iter(p, v, a), b)
    decreases a
  {
    if a > 0 {
      IterAdd(p, Get(p, v), a - 1, b);
    }
  }

  lemma {:induction false} IterSucc(p: Parents, v: Val, k: nat)
    ensures Iter(p, v, k + 1) == Get(p, Iter(p, v, k))
  {
    IterAdd(p, v, k, 1);
  }

  /** Once the chain is at a fixed point it stays there. */
  lemma {:induction false} RootStays(p: Parents, v: Val, a: nat, k: nat)
    requires IsRoot(p, Iter(p, v, a))
    ensures Iter(p, v, a + k) == Iter(p, v, a)
    decreases k
  {
    if k > 0 {
      RootStays(p, v, a, k - 1);
      IterSucc(p, v, a + k - 1);
    }
  }

  /** A chain reaches at most one fixed point. */
  lemma {:induction false} RootUnique(p: Parents, v: Val, r1: Val, r2: Val)
    requires RootOf(p, v, r1) && RootOf(p, v, r2)
    ensures r1 == r2
  {
    var a: nat :| Iter(p, v, a) == r1;
    var b: nat :| Iter(p, v, b) == r2;
    if a <= b {
      RootStays(p, v, a, b - a);
    } else {
      RootStays(p, v, b, a - b);
    }
  }

  /** The first fixed point on a chain that has one. */
  lemma {:induction false} FirstRoot(p: Parents, v: Val, n: nat) returns (m: nat)
    requires IsRoot(p, Iter(p, v, n))
    ensures m <= n && IsRoot(p, Iter(p, v, m))
    ensures forall k | 0 <= k < m :: !IsRoot(p, Iter(p, v, k))
    decreases n
  {
    if n == 0 {
      m := 0;
    } else if IsRoot(p, Iter(p, v, n - 1)) {
      m := FirstRoot(p, v, n - 1);
    } else {
      m := n;
      forall k | 0 <= k < n
        ensures !IsRoot(p, Iter(p, v, k))
      {
        if IsRoot(p, Iter(p, v, k)) {
          RootStays(p, v, k, n - 1 - k);
        }
      }
    }
  }

  /** Up to the first fixed point, a chain never repeats a value. */
  lemma {:induction false} ChainDistinct(p: Parents, v: Val, n: nat, a: nat, b: nat)
    requires IsRoot(p, Iter(p, v, n))
    requires forall k | 0 <= k < n :: !IsRoot(p, Iter(p, v, k))
    requires a < b <= n
    ensures Iter(p, v, a) != Iter(p, v, b)
  {
    var d: nat := n - b;
    IterAdd(p, v, a, d);
    IterAdd(p, v, b, d);
    assert b + d == n && a + d < n;
    assert !IsRoot(p, Iter(p, v, a + d));
  }

  lemma {:induction false} CompressGet(p: Parents, v: Val, n: nat, r: Val, x: Val)
    ensures Get(Compress(p, v, n, r), x) == if Key(x) in PathKeys(p, v, n) then r else Get(p, x)
    decreases n
  {
    if n > 0 {
      CompressGet(p, Get(p, v), n - 1, r, x);
    }
  }

  lemma {:induction false} PathKeysHas(p: Parents, v: Val, n: nat, i: nat)
    requires i < n
    ensures Key(Iter(p, v, i)) in PathKeys(p, v, n)
    decreases n
  {
    if i > 0 {
      PathKeysHas(p, Get(p, v), n - 1, i - 1);
    }
  }

  lemma {:induction false} PathKeysOnChain(p: Parents, v: Val, n: nat, k: string) returns (i: nat)
    requires k in PathKeys(p, v, n)
    ensures i < n && Key(Iter(p, v, i)) == k
    decreases n
  {
    if Key(v) == k {
      i := 0;
    } else {
      var j := PathKeysOnChain(p, Get(p, v), n - 1, k);
      i := j + 1;
    }
  }

  /** Any value sharing a key with the chain before `r` is in `r`'s tree. */
  lemma {:induction false} KeyOnPathReachesRoot(p: Parents, v: Val, n: nat, r: Val, x: Val)
    requires r == Iter(p, v, n) && IsRoot(p, r)
    requires Key(x) in PathKeys(p, v, n)
    ensures RootOf(p, x, r)
  {
    var i := PathKeysOnChain(p, v, n, Key(x));
    assert Get(p, x) == Get(p, Iter(p, v, i));
    IterSucc(p, v, i);
    IterAdd(p, v, i + 1, n - i - 1);
    assert Iter(p, x, n - i) == Iter(p, Get(p, x), n - i - 1);
  }

  // ------------------------------------------------------ findRep

  /** What `FindFrom` computes, in terms of the reference chain. */
  lemma {:induction false} FindFromSound(p: Parents, v: Val, visited: set<Val>, U: set<Val>) returns (n: nat)
    requires v in U && p.Values + {Undef} <= U
    requires FindFrom(p, v, visited, U).Some?
    ensures var f := FindFrom(p, v, visited, U).value;
            && f.rep == Iter(p, v, n) && IsRoot(p, f.rep)
            && (forall k | 0 <= k < n :: !IsRoot(p, Iter(p, v, k)))
            && f.parents == Compress(p, v, n, f.rep)
    decreases U - visited
  {
    if IsRoot(p, v) {
      n := 0;
    } else {
      GetInValues(p, v);
      var m := FindFromSound(p, Get(p, v), visited + {v}, U);
      n := m + 1;
      assert forall k | 1 <= k < n :: Iter(p, v, k) == Iter(p, Get(p, v), k - 1);
    }
  }

  /** Starting on a chain that has a fixed point, with only its earlier values visited, `FindFrom` finds it. */
  lemma {:induction false} FindFromComplete(p: Parents, v0: Val, n: nat, j: nat, visited: set<Val>, U: set<Val>)
    requires IsRoot(p, Iter(p, v0, n))
    requires forall k | 0 <= k < n :: !IsRoot(p, Iter(p, v0, k))
    requires j <= n
    requires visited == set k: nat | k < j :: Iter(p, v0, k)
    requires Iter(p, v0, j) in U && p.Values + {Undef} <= U
    ensures FindFrom(p, Iter(p, v0, j), visited, U).Some?
    decreases n - j
  {
    var v := Iter(p, v0, j);
    if !IsRoot(p, v) {
      assert j < n;
      assert v !in visited by {
        forall k | 0 <= k < j
          ensures Iter(p, v0, k) != v
        {
          ChainDistinct(p, v0, n, k, j);
        }
      }
      IterSucc(p, v0, j);
      GetInValues(p, v);
      assert visited + {v} == set k: nat | k < j + 1 :: Iter(p, v0, k);
      FindFromComplete(p, v0, n, j + 1, visited + {v}, U);
    }
  }

  /** The search from `v` with nothing visited ends exactly when the chain reaches a fixed point, and ends there. */
  lemma {:induction false} FindFromTerminates(p: Parents, v: Val)
    ensures var r := FindFrom(p, v, {}, p.Values + {Undef, v});
            && (r.Some? <==> HasRoot(p, v))
            && (r.Some? ==> RootOf(p, v, r.value.rep))
  {
    var U := p.Values + {Undef, v};
    if FindFrom(p, v, {}, U).Some? {
      var n := FindFromSound(p, v, {}, U);
    }
    if HasRoot(p, v) {
      var n: nat :| IsRoot(p, Iter(p, v, n));
      var m := FirstRoot(p, v, n);
      assert (set k: nat | k < 0 :: Iter(p, v, k)) == {};
      FindFromComplete(p, v, m, 0, {}, U);
    }
  }

  /**
    The result of `findRep(v)` is the fixed point of `v`'s chain; afterwards
    it is still a fixed point and every value on the chain points straight
    at it.
   */
  lemma {:induction false} FindRepResult(p: Parents, v: Val)
    requires FindRep(p, v).Some?
    ensures var f := FindRep(p, v).value;
            && RootOf(p, v, f.rep)
            && IsRoot(f.parents, f.rep)
            && forall i: nat :: Get(f.parents, Iter(p, v, i)) == f.rep
  {
    var f := FindRep(p, v).value;
    var n := FindFromSound(p, v, {}, p.Values + {Undef, v});
    CompressGet(p, v, n, f.rep, f.rep);
    forall i: nat
      ensures Get(f.parents, Iter(p, v, i)) == f.rep
    {
      CompressGet(p, v, n, f.rep, Iter(p, v, i));
      if i < n {
        PathKeysHas(p, v, n, i);
      } else {
        RootStays(p, v, n, i - n);
      }
    }
  }

  /** Compression redirects only members of `v`'s tree, and only to its representative. */
  lemma {:induction false} FindRepRedirectsTree(p: Parents, v: Val)
    requires FindRep(p, v).Some?
    ensures var f := FindRep(p, v).value;
            forall x | Get(f.parents, x) != Get(p, x) :: Get(f.parents, x) == f.rep && RootOf(p, x, f.rep)
  {
    var f := FindRep(p, v).value;
    var n := FindFromSound(p, v, {}, p.Values + {Undef, v});
    forall x | Get(f.parents, x) != Get(p, x)
      ensures Get(f.parents, x) == f.rep && RootOf(p, x, f.rep)
    {
      CompressGet(p, v, n, f.rep, x);
      KeyOnPathReachesRoot(p, v, n, f.rep, x);
    }
  }

  /** A second `findRep(v)` returns the same representative and changes nothing. */
  lemma {:induction false} FindRepIdempotent(p: Parents, v: Val)
    requires FindRep(p, v).Some?
    ensures FindRep(FindRep(p, v).value.parents, v) == FindRep(p, v)
  {
    var f := FindRep(p, v).value;
    var q := f.parents;
    var n := FindFromSound(p, v, {}, p.Values + {Undef, v});
    FindRepResult(p, v);
    assert Get(q, Iter(p, v, 0)) == f.rep;
    if v != f.rep {
      assert n > 0;
      assert Key(v) in q;
      var U := q.Values + {Undef, v};
      GetInValues(q, v);
      assert FindFrom(q, f.rep, {v}, U) == Some(Found(f.rep, q));
      assert q[Key(v) := f.rep] == q;
      assert FindFrom(q, v, {}, U) == Some(Found(f.rep, q[Key(v) := f.rep]));
    } else {
      assert IsRoot(q, v);
    }
  }

  /** Every value keeps its fixed point across a compression. */
  lemma {:induction false} CompressKeepsRoots(p: Parents, v: Val, w: Val, s: Val)
    requires FindRep(p, v).Some?
    ensures RootOf(FindRep(p, v).value.parents, w, s) <==> RootOf(p, w, s)
  {
    var f := FindRep(p, v).value;
    var n := FindFromSound(p, v, {}, p.Values + {Undef, v});
    FindRepResult(p, v);
    if RootOf(p, w, s) {
      var m: nat :| Iter(p, w, m) == s;
      RootsSurvive(p, v, n, f.rep, w, s, m);
    }
    if RootOf(f.parents, w, s) {
      var m: nat :| Iter(f.parents, w, m) == s;
      RootsComeBack(p, v, n, f.rep, w, s, m);
    }
  }

  lemma {:induction false} RootsSurvive(p: Parents, v: Val, n: nat, r: Val, w: Val, s: Val, m: nat)
    requires r == Iter(p, v, n) && IsRoot(p, r)
    requires IsRoot(p, s) && Iter(p, w, m) == s
    ensures RootOf(Compress(p, v, n, r), w, s)
    decreases m
  {
    var q := Compress(p, v, n, r);
    CompressGet(p, v, n, r, w);
    CompressGet(p, v, n, r, r);
    if Key(w) in PathKeys(p, v, n) {
      KeyOnPathReachesRoot(p, v, n, r, w);
      assert RootOf(p, w, s);
      RootUnique(p, w, r, s);
      assert Iter(q, w, 1) == r;
    } else if m == 0 {
      assert Iter(q, w, 0) == s;
    } else {
      RootsSurvive(p, v, n, r, Get(p, w), s, m - 1);
      var k: nat :| Iter(q, Get(p, w), k) == s;
      assert Iter(q, w, k + 1) == s;
    }
  }

  lemma {:induction false} RootsComeBack(p: Parents, v: Val, n: nat, r: Val, w: Val, s: Val, m: nat)
    requires r == Iter(p, v, n) && IsRoot(p, r)
    requires IsRoot(Compress(p, v, n, r), s) && Iter(Compress(p, v, n, r), w, m) == s
    ensures RootOf(p, w, s)
    decreases m
  {
    var q := Compress(p, v, n, r);
    CompressGet(p, v, n, r, w);
    CompressGet(p, v, n, r, r);
    if Key(w) in PathKeys(p, v, n) {
      KeyOnPathReachesRoot(p, v, n, r, w);
      assert Iter(q, w, 1) == r;
      assert RootOf(q, w, r) && RootOf(q, w, s);
      RootUnique(q, w, r, s);
    } else if m == 0 {
      CompressGet(p, v, n, r, s);
      assert Iter(p, w, 0) == s;
    } else {
      RootsComeBack(p, v, n, r, Get(p, w), s, m - 1);
      var k: nat :| Iter(p, Get(p, w), k) == s;
      assert Iter(p, w, k + 1) == s;
    }
  }

  /** `Rep` names exactly the fixed point of the chain. */
  lemma {:induction false} RepIsRootOf(p: Parents, w: Val, s: Val)
    ensures Rep(p, w) == Some(s) <==> RootOf(p, w, s)
  {
    if Rep(p, w).Some? {
      FindRepResult(p, w);
      if RootOf(p, w, s) {
        RootUnique(p, w, s, Rep(p, w).value);
      }
    }
  }

  /** Path compression preserves the representative of every value, not only of `v`. */
  lemma {:induction false} CompressKeepsReps(p: Parents, v: Val)
    requires FindRep(p, v).Some?
    ensures forall w :: Rep(FindRep(p, v).value.parents, w) == Rep(p, w)
  {
    var q := FindRep(p, v).value.parents;
    forall w
      ensures Rep(q, w) == Rep(p, w)
    {
      if Rep(q, w).Some? {
        RepIsRootOf(q, w, Rep(q, w).value);
        CompressKeepsRoots(p, v, w, Rep(q, w).value);
        RepIsRootOf(p, w, Rep(q, w).value);
      } else if Rep(p, w).Some? {
        RepIsRootOf(p, w, Rep(p, w).value);
        CompressKeepsRoots(p, v, w, Rep(p, w).value);
        RepIsRootOf(q, w, Rep(p, w).value);
      }
    }
  }
}
