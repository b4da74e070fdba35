/** The index trees behind the MIB-II tables and their maintenance.

    A table's rows are kept as a tree of sorted lists: the list root node of
    the table holds one list node per value of the first index component;
    each list node below the last level points to a further list root node
    holding the values of the next component, and so on. A row of the
    ipAddrTable, indexed by an address a.b.c.d, is the chain a, b, c, d.

    Here such a tree is a map from the path of each list root node (the index
    components leading to it; the table's own root has the empty path) to
    the set of sub-identifiers in its list. A sorted list without duplicates
    is its set, and its `count` the set's size. List node `k` under the root
    at path `p` has a root below it exactly when `p + [k]` is a key.

    Memory comes from the heap: each list node and each list root node the
    walks allocate may fail to be allocated. The outcome of each allocation,
    in order, is a parameter (`true` for a failure; once it runs out every
    allocation succeeds). */
module IndexTree {
  import opened MibTypes

  type Path = seq<s32>
  type Tree = map<Path, set<s32>>

  /** A table with no rows: its list root node with an empty list. */
  const EmptyTree: Tree := map[[] := {}]

  /** The tree after a walk and the allocation outcomes it did not use. */
  datatype Walk = Walk(tree: Tree, fails: seq<bool>)

  /** A list node marked for deletion: the path of its root and its value. */
  datatype Mark = Mark(rn: Path, n: s32)

  /** The next allocation fails. */
  predicate Fails(fails: seq<bool>)
  {
    |fails| > 0 && fails[0]
  }

  /** The allocation outcomes after one allocation. */
  function Rest(fails: seq<bool>): seq<bool>
  {
    if |fails| > 0 then fails[1..] else []
  }

  // ----------------------------------------------------------------- insert

  /** The insertion walk of `mib2_add_*` and `mib2_udp_bind` from level
      `level`, with the walk at the list root `rn`. At each level
      `snmp_mib_node_insert` puts `idx[level]` into the list (or finds it
      there); below the last level the walk moves to the root under that
      node, allocating an empty one when there is none and stopping when
      that allocation fails. When the list node itself cannot be allocated
      the walk goes on at the same root with the next component. */
  function InsertFrom(t: Tree, rn: Path, idx: seq<s32>, level: nat, fails: seq<bool>): (w: Walk)
    requires rn in t && level <= |idx|
    ensures forall p :: p in t ==> p in w.tree && t[p] <= w.tree[p]
    ensures fails == [] ==> w.fails == []
    decreases |idx| - level
  {
    if level == |idx| then Walk(t, fails)
    else
      var k := idx[level];
      if k !in t[rn] && Fails(fails) then
        InsertFrom(t, rn, idx, level + 1, Rest(fails))
      else
        var t1 := if k in t[rn] then t else t[rn := t[rn] + {k}];
        var f1 := if k in t[rn] then fails else Rest(fails);
        var q := rn + [k];
        if level == |idx| - 1 then Walk(t1, f1)
        else if q in t1 then InsertFrom(t1, q, idx, level + 1, f1)
        else if Fails(f1) then Walk(t1, Rest(f1))
        else InsertFrom(t1[q := {}], q, idx, level + 1, Rest(f1))
  }

  /** The insertion loop shared by `mib2_add_arp_entry`, `mib2_add_ip4`,
      `mib2_add_route_ip4` and `mib2_udp_bind`. */
  method InsertIndex(t0: Tree, idx: seq<s32>, fails0: seq<bool>) returns (t: Tree, fails: seq<bool>)
    requires [] in t0
    ensures Walk(t, fails) == InsertFrom(t0, [], idx, 0, fails0)
  {
    t, fails := t0, fails0;
    var rn: Path := [];
    var level := 0;
    while level < |idx|
      invariant 0 <= level <= |idx| && rn in t
      invariant InsertFrom(t, rn, idx, level, fails) == InsertFrom(t0, [], idx, 0, fails0)
    {
      var k := idx[level];
      var inserted := true;
      if k !in t[rn] {
        if Fails(fails) {
          inserted := false;
        } else {
          t := t[rn := t[rn] + {k}];
        }
        fails := Rest(fails);
      }
      if level != |idx| - 1 && inserted {
        var q := rn + [k];
        if q !in t {
          if Fails(fails) {
            fails := Rest(fails);
            break;
          }
          fails := Rest(fails);
          t := t[q := {}];
        }
        rn := q;
      }
      level := level + 1;
    }
  }

  // ----------------------------------------------------------------- remove

  /** `snmp_mib_node_find`: 0 when `k` is not in the list at `p`; 1 when its
      node may go (it has no root below it, or that root holds at most one
      node); 2 when other rows still hang below it. */
  function Find(t: Tree, p: Path, k: s32): nat
    requires p in t
  {
    if k !in t[p] then 0
    else if p + [k] !in t || |t[p + [k]]| <= 1 then 1
    else 2
  }

  /** The marking loop of `mib2_remove_*` and `mib2_udp_unbind` from level
      `level` at the list root `rn`, with `marks` marked so far: a missing
      component ends the walk with nothing marked, a node other rows share
      clears the marks, any other node is marked; the walk ends after the
      last level or at a node with no root below it. */
  function MarkFrom(t: Tree, rn: Path, idx: seq<s32>, level: nat, marks: seq<Mark>): (r: seq<Mark>)
    requires rn in t && level <= |idx|
    ensures |r| <= |marks| + (|idx| - level)
    ensures forall i :: 0 <= i < |r| ==> r[i] in marks || (r[i].rn in t && Find(t, r[i].rn, r[i].n) == 1)
    decreases |idx| - level
  {
    if level == |idx| then marks
    else
      var k := idx[level];
      var fc := Find(t, rn, k);
      if fc == 0 then []
      else if fc == 1 then
        if rn + [k] in t then MarkFrom(t, rn + [k], idx, level + 1, marks + [Mark(rn, k)])
        else marks + [Mark(rn, k)]
      else MarkFrom(t, rn + [k], idx, level + 1, [])
  }

  /** `snmp_mib_node_delete` followed by `snmp_mib_lrn_free`: the node leaves
      its list and the root below it, if any, is freed. */
  function NodeDelete(t: Tree, p: Path, k: s32): Tree
  {
    (if p in t then t[p := t[p] - {k}] else t) - {p + [k]}
  }

  /** The deletion loop: the marked nodes, deepest first. */
  function DeleteMarks(t: Tree, m: seq<Mark>): (r: Tree)
    ensures [] in t ==> [] in r && r[[]] <= t[[]]
    decreases |m|
  {
    if |m| == 0 then t
    else DeleteMarks(NodeDelete(t, m[|m| - 1].rn, m[|m| - 1].n), m[..|m| - 1])
  }

  /** The whole removal: mark, then delete. */
  function RemoveFrom(t: Tree, idx: seq<s32>): (r: Tree)
    requires [] in t
    ensures [] in r && r[[]] <= t[[]]
  {
    DeleteMarks(t, MarkFrom(t, [], idx, 0, []))
  }

  /** The removal loops shared by `mib2_remove_arp_entry`, `mib2_remove_ip4`,
      `mib2_remove_route_ip4` and `mib2_udp_unbind`, with their `del_rn` and
      `del_n` arrays (one array of marks here) and `del_cnt` cursor. */
  method RemoveIndex(t0: Tree, idx: seq<s32>) returns (t: Tree)
    requires [] in t0
    ensures t == RemoveFrom(t0, idx)
  {
    ghost var m := MarkFrom(t0, [], idx, 0, []);
    var del := new Mark[|idx|];
    var delCnt := 0;
    var level := 0;
    var rn: Option<Path> := Some([]);
    while level < |idx| && rn.Some?
      invariant 0 <= delCnt <= level <= |idx|
      invariant rn.Some? ==> rn.value in t0 && MarkFrom(t0, rn.value, idx, level, del[..delCnt]) == m
      invariant rn.None? ==> del[..delCnt] == m
    {
      var p := rn.value;
      var k := idx[level];
      var fc := Find(t0, p, k);
      ghost var marks := del[..delCnt];
      if fc == 0 {
        assert MarkFrom(t0, p, idx, level, marks) == [];
        delCnt := 0;
        rn := None;
      } else if fc == 1 {
        assert MarkFrom(t0, p, idx, level, marks) ==
          if p + [k] in t0 then MarkFrom(t0, p + [k], idx, level + 1, marks + [Mark(p, k)])
          else marks + [Mark(p, k)];
        del[delCnt] := Mark(p, k);
        assert del[..delCnt + 1] == marks + [Mark(p, k)];
        delCnt := delCnt + 1;
        rn := if p + [k] in t0 then Some(p + [k]) else None;
      } else {
        assert MarkFrom(t0, p, idx, level, marks) == MarkFrom(t0, p + [k], idx, level + 1, []);
        delCnt := 0;
        rn := Some(p + [k]);
      }
      level := level + 1;
    }
    t := DeleteMarked(t0, del, delCnt);
  }

  /** The deletion pass of the removal functions: walks the recorded marks
      from the deepest one back to the root. */
  method DeleteMarked(t0: Tree, del: array<Mark>, n: nat) returns (t: Tree)
    requires n <= del.Length
    ensures t == DeleteMarks(t0, del[..n])
  {
    var delCnt := n;
    t := t0;
    while delCnt > 0
      invariant 0 <= delCnt <= n
      invariant DeleteMarks(t, del[..delCnt]) == DeleteMarks(t0, del[..n])
    {
      delCnt := delCnt - 1;
      assert del[..delCnt + 1][..delCnt] == del[..delCnt];
      t := NodeDelete(t, del[delCnt].rn, del[delCnt].n);
    }
  }

  // ------------------------------------------------------------- meaning

  /** Row `x` is in the tree: each component is in the list its prefix
      leads to. */
  ghost predicate Present(t: Tree, x: Path)
  {
    forall j :: 0 <= j < |x| ==> x[..j] in t && x[j] in t[x[..j]]
  }

  /** The first `l` components of `idx` are in the tree and `idx[..l]` is a
      list root. */
  ghost predicate PrefixPresent(t: Tree, idx: Path, l: nat)
    requires l <= |idx|
  {
    idx[..l] in t && forall j :: 0 <= j < l ==> idx[..j] in t && idx[j] in t[idx[..j]]
  }

  /** Every list root below the table's root hangs under a list node. */
  ghost predicate Rooted(t: Tree)
  {
    forall p :: p in t && p != [] ==> p[..|p| - 1] in t && p[|p| - 1] in t[p[..|p| - 1]]
  }

  /** Every list node above the last level has a list root below it. */
  ghost predicate Complete(t: Tree, depth: nat)
  {
    forall p, k :: p in t && k in t[p] && |p| + 1 < depth ==> p + [k] in t
  }

  /** No list root other than the table's own (and `except`) is empty. */
  ghost predicate Filled(t: Tree, except: Path)
  {
    forall p :: p in t && p != [] && p != except ==> t[p] != {}
  }

  /** A tree of a table whose index has `depth` components. */
  ghost predicate Wf(t: Tree, depth: nat)
  {
    && [] in t
    && (forall p :: p in t ==> |p| < depth)
    && Rooted(t)
    && Complete(t, depth)
    && Filled(t, [])
  }

  lemma EmptyTreeWf(depth: nat)
    requires depth > 0
    ensures Wf(EmptyTree, depth)
    ensures forall x :: !Present(EmptyTree, x) || x == []
  {
    forall x ensures !Present(EmptyTree, x) || x == [] {
      if x != [] {
        assert x[..0] == [];
      }
    }
  }

  /** Rows only grow when lists and roots only grow. */
  lemma PresentMonotone(t: Tree, t': Tree, x: Path)
    requires forall p :: p in t ==> p in t' && t[p] <= t'[p]
    requires Present(t, x)
    ensures Present(t', x)
  {
  }

  /** One step of an insertion walk: `k` joins the list at `rn`, and perhaps
      an empty root is allocated under it. The only row this can add is
      `rn + [k]` itself. */
  lemma GrowPresent(t: Tree, t': Tree, rn: Path, k: s32, x: Path)
    requires rn in t && Rooted(t)
    requires rn in t' && t'[rn] == t[rn] + {k}
    requires forall p :: p in t' && p != rn ==>
      (p in t && t'[p] == t[p]) || (p == rn + [k] && p !in t && t'[p] == {})
    requires Present(t', x)
    ensures Present(t, x) || (|x| == |rn| + 1 && x[..|rn|] == rn && x[|rn|] == k)
  {
    if !(|x| == |rn| + 1 && x[..|rn|] == rn && x[|rn|] == k) {
      forall j | 0 <= j < |x|
        ensures x[..j] in t && x[j] in t[x[..j]]
      {
        assert x[..j] in t' && x[j] in t'[x[..j]];
        if x[..j] == rn && x[j] == k {
          assert |x| > |rn| + 1;
          var q := rn + [k];
          assert x[..j + 1] == q;
          assert q in t;
          assert q[..|q| - 1] == rn;
        }
      }
    }
  }

  /** The tree after one level of an insertion walk in which every
      allocation succeeds. */
  function GrowStep(t: Tree, idx: Path, l: nat): Tree
    requires l < |idx| && idx[..l] in t
  {
    var rn, k := idx[..l], idx[l];
    var t1 := if k in t[rn] then t else t[rn := t[rn] + {k}];
    if l == |idx| - 1 || rn + [k] in t1 then t1 else t1[rn + [k] := {}]
  }

  lemma GrowStepWalk(t: Tree, idx: Path, l: nat)
    requires l < |idx| && idx[..l] in t
    ensures l == |idx| - 1 ==> InsertFrom(t, idx[..l], idx, l, []) == Walk(GrowStep(t, idx, l), [])
    ensures l < |idx| - 1 ==>
      idx[..l + 1] in GrowStep(t, idx, l) &&
      InsertFrom(t, idx[..l], idx, l, []) == InsertFrom(GrowStep(t, idx, l), idx[..l + 1], idx, l + 1, [])
  {
    var rn, k := idx[..l], idx[l];
    var q := rn + [k];
    assert q == idx[..l + 1];
    var t1 := if k in t[rn] then t else t[rn := t[rn] + {k}];
    assert !Fails([]) && Rest([]) == [];
    if l == |idx| - 1 {
      assert InsertFrom(t, rn, idx, l, []) == Walk(t1, []);
    } else if q in t1 {
      assert InsertFrom(t, rn, idx, l, []) == InsertFrom(t1, q, idx, l + 1, []);
    } else {
      assert InsertFrom(t, rn, idx, l, []) == InsertFrom(t1[q := {}], q, idx, l + 1, []);
    }
  }

  lemma GrowStepRooted(t: Tree, idx: Path, l: nat)
    requires l < |idx| && PrefixPresent(t, idx, l) && Rooted(t)
    ensures Rooted(GrowStep(t, idx, l))
  {
    var g := GrowStep(t, idx, l);
    var rn, k := idx[..l], idx[l];
    var q := rn + [k];
    assert q[..|q| - 1] == rn;
    GrowStepShape(t, idx, l);
    forall p | p in g && p != []
      ensures p[..|p| - 1] in g && p[|p| - 1] in g[p[..|p| - 1]]
    {
      if p != q {
        assert p in t;
        assert p[..|p| - 1] in t && p[|p| - 1] in t[p[..|p| - 1]];
      }
    }
  }

  /** What one step of the insertion walk adds: possibly `idx[l]` to the
      list at `idx[..l]`, and possibly an empty list root below it. */
  lemma GrowStepShape(t: Tree, idx: Path, l: nat)
    requires l < |idx| && idx[..l] in t
    ensures forall p :: p in GrowStep(t, idx, l) ==>
      p in t || (l < |idx| - 1 && p == idx[..l] + [idx[l]] && GrowStep(t, idx, l)[p] == {})
    ensures forall p :: p in t ==>
      (p in GrowStep(t, idx, l) && GrowStep(t, idx, l)[p] == if p == idx[..l] then t[p] + {idx[l]} else t[p])
  {
  }

  lemma GrowStepComplete(t: Tree, idx: Path, l: nat)
    requires l < |idx| && PrefixPresent(t, idx, l) && Complete(t, |idx|)
    requires forall p :: p in t ==> |p| < |idx|
    ensures Complete(GrowStep(t, idx, l), |idx|)
    ensures forall p :: p in GrowStep(t, idx, l) ==> |p| < |idx|
  {
    var g := GrowStep(t, idx, l);
    var rn, k := idx[..l], idx[l];
    GrowStepShape(t, idx, l);
    forall p, n | p in g && n in g[p] && |p| + 1 < |idx|
      ensures p + [n] in g
    {
      if p == rn && n == k && l < |idx| - 1 {
      } else {
        assert p in t && n in t[p];
      }
    }
  }

  lemma GrowStepFilled(t: Tree, idx: Path, l: nat)
    requires l < |idx| && PrefixPresent(t, idx, l) && Filled(t, idx[..l])
    ensures l < |idx| - 1 ==> Filled(GrowStep(t, idx, l), idx[..l + 1]) && PrefixPresent(GrowStep(t, idx, l), idx, l + 1)
    ensures l == |idx| - 1 ==> Filled(GrowStep(t, idx, l), []) && Present(GrowStep(t, idx, l), idx)
  {
    assert idx[..l] + [idx[l]] == idx[..l + 1];
    assert idx[..|idx|] == idx;
  }

  lemma GrowStepPrefix(t: Tree, idx: Path, l: nat)
    requires l < |idx| && PrefixPresent(t, idx, l)
    ensures l < |idx| - 1 ==> PrefixPresent(GrowStep(t, idx, l), idx, l + 1)
    ensures l == |idx| - 1 ==> Present(GrowStep(t, idx, l), idx)
  {
    assert idx[..l] + [idx[l]] == idx[..l + 1];
    assert idx[..|idx|] == idx;
  }

  lemma GrowStepRows(t: Tree, idx: Path, l: nat, x: Path)
    requires l < |idx| && PrefixPresent(t, idx, l) && Rooted(t)
    ensures Present(t, x) ==> Present(GrowStep(t, idx, l), x)
    ensures Present(GrowStep(t, idx, l), x) ==>
      Present(t, x) || (|x| == l + 1 && x[..l] == idx[..l] && x[l] == idx[l])
  {
    var rn, k := idx[..l], idx[l];
    var q := rn + [k];
    assert q[..|q| - 1] == rn;
    var g := GrowStep(t, idx, l);
    GrowStepShape(t, idx, l);
    if Present(t, x) {
      PresentMonotone(t, g, x);
    }
    if Present(g, x) {
      GrowPresent(t, g, rn, k, x);
    }
  }

  /** With every allocation succeeding, the insertion walk from level `l`
      leaves a well-formed tree. */
  lemma {:induction false} InsertFromWf(t: Tree, idx: Path, l: nat)
    requires l < |idx|
    requires [] in t && (forall p :: p in t ==> |p| < |idx|)
    requires Rooted(t) && Complete(t, |idx|) && Filled(t, idx[..l])
    requires PrefixPresent(t, idx, l)
    ensures Wf(InsertFrom(t, idx[..l], idx, l, []).tree, |idx|)
    decreases |idx| - l
  {
    GrowStepWalk(t, idx, l);
    GrowStepRooted(t, idx, l);
    GrowStepComplete(t, idx, l);
    GrowStepFilled(t, idx, l);
    if l < |idx| - 1 {
      InsertFromWf(GrowStep(t, idx, l), idx, l + 1);
    }
  }

  /** A row of the table's length that agrees with `idx` on all but its
      last component, and there too, is `idx`. */
  lemma SameRow(x: Path, idx: Path)
    requires |x| == |idx| > 0
    requires x[..|x| - 1] == idx[..|x| - 1] && x[|x| - 1] == idx[|x| - 1]
    ensures x == idx
  {
    assert x == x[..|x| - 1] + [x[|x| - 1]];
    assert idx == idx[..|x| - 1] + [idx[|x| - 1]];
  }

  /** With every allocation succeeding, the insertion walk from level `l`
      keeps the rows the tree held, adds `idx`, and adds nothing else. */
  lemma {:induction false} InsertFromRows(t: Tree, idx: Path, l: nat, x: Path)
    requires l < |idx| && |x| == |idx|
    requires PrefixPresent(t, idx, l) && Rooted(t) && Complete(t, |idx|)
    requires forall p :: p in t ==> |p| < |idx|
    ensures Present(InsertFrom(t, idx[..l], idx, l, []).tree, x) <==> Present(t, x) || x == idx
    decreases |idx| - l
  {
    GrowStepWalk(t, idx, l);
    GrowStepRows(t, idx, l, x);
    GrowStepPrefix(t, idx, l);
    var g := GrowStep(t, idx, l);
    if l == |idx| - 1 {
      if Present(g, x) && !Present(t, x) {
        SameRow(x, idx);
      }
    } else {
      GrowStepRooted(t, idx, l);
      GrowStepComplete(t, idx, l);
      InsertFromRows(g, idx, l + 1, x);
    }
  }

  /** The insertion walk's whole effect when memory suffices: the table
      gains row `idx` and keeps every other row; no other row appears. */
  lemma InsertSound(t: Tree, idx: Path, x: Path)
    requires |idx| > 0 && Wf(t, |idx|) && |x| == |idx|
    ensures Wf(InsertFrom(t, [], idx, 0, []).tree, |idx|)
    ensures Present(InsertFrom(t, [], idx, 0, []).tree, x) <==> Present(t, x) || x == idx
  {
    assert idx[..0] == [];
    InsertFromWf(t, idx, 0);
    InsertFromRows(t, idx, 0, x);
  }

  /** The marks for levels `s` to `e - 1` of `idx`. */
  function Chain(idx: Path, s: nat, e: nat): (m: seq<Mark>)
    requires s <= e <= |idx|
    ensures |m| == e - s
  {
    seq(e - s, i requires 0 <= i < e - s => Mark(idx[..s + i], idx[s + i]))
  }

  /** The list roots of `idx` at levels `s + 1` to `e` hold `idx`'s node
      alone. */
  ghost predicate Singletons(t: Tree, idx: Path, s: nat, e: nat)
  {
    forall l :: s < l <= e && l < |idx| ==> idx[..l] in t && t[idx[..l]] == {idx[l]}
  }

  /** The tree without the list roots of `idx` at levels `s + 1` to `e` and
      without `idx[s]` in the list at level `s`. */
  function Removed(t: Tree, idx: Path, s: nat, e: nat): Tree
    requires s <= e <= |idx|
  {
    map p | p in t.Keys && !(s < |p| <= e && p == idx[..|p|]) ::
      if s < e && p == idx[..s] then t[p] - {idx[s]} else t[p]
  }

  lemma OneOrTwo(a: set<s32>, x: s32)
    requires x in a
    ensures |a| <= 1 ==> a == {x}
    ensures |a| > 1 ==> a - {x} != {}
  {
    var b := a - {x};
    assert a == b + {x};
    assert |a| == |b| + 1;
  }

  /** The level from which removing `idx` marks nodes, as the marking loop
      finds it from level `l` with `s` its current start. */
  function CutLevel(t: Tree, idx: Path, s: nat, l: nat): (c: nat)
    requires l < |idx|
    ensures s <= l ==> s <= c < |idx|
    decreases |idx| - l
  {
    if l == |idx| - 1 then s
    else if idx[..l + 1] in t && |t[idx[..l + 1]]| > 1 then CutLevel(t, idx, l + 1, l + 1)
    else CutLevel(t, idx, s, l + 1)
  }

  lemma ChainStep(idx: Path, s: nat, l: nat)
    requires s <= l < |idx|
    ensures Chain(idx, s, l) + [Mark(idx[..l], idx[l])] == Chain(idx, s, l + 1)
  {
  }

  /** One level of marking along a present `idx`: at the last level its
      node is marked and the walk ends. */
  lemma MarkLast(t: Tree, idx: Path, s: nat, l: nat)
    requires forall p :: p in t ==> |p| < |idx|
    requires s <= l == |idx| - 1 && idx[..l] in t && idx[l] in t[idx[..l]]
    ensures MarkFrom(t, idx[..l], idx, l, Chain(idx, s, l)) == Chain(idx, s, |idx|)
  {
    assert idx[..l] + [idx[l]] == idx;
    ChainStep(idx, s, l);
  }

  /** One level of marking along a present `idx` above the last level: the
      marks restart below a list root other rows share and grow by this
      level's node otherwise. */
  lemma MarkStep(t: Tree, idx: Path, s: nat, l: nat)
    requires Complete(t, |idx|)
    requires s <= l < |idx| - 1 && idx[..l] in t && idx[l] in t[idx[..l]]
    ensures idx[..l + 1] in t
    ensures |t[idx[..l + 1]]| > 1 ==>
      MarkFrom(t, idx[..l], idx, l, Chain(idx, s, l)) == MarkFrom(t, idx[..l + 1], idx, l + 1, Chain(idx, l + 1, l + 1))
    ensures |t[idx[..l + 1]]| <= 1 ==>
      MarkFrom(t, idx[..l], idx, l, Chain(idx, s, l)) == MarkFrom(t, idx[..l + 1], idx, l + 1, Chain(idx, s, l + 1))
  {
    var q := idx[..l] + [idx[l]];
    assert q == idx[..l + 1];
    assert q in t;
    ChainStep(idx, s, l);
  }

  lemma SingletonsExtend(t: Tree, idx: Path, s: nat, l: nat)
    requires Singletons(t, idx, s, l) && l + 1 < |idx| && s <= l
    requires idx[..l + 1] in t && t[idx[..l + 1]] == {idx[l + 1]}
    ensures Singletons(t, idx, s, l + 1)
  {
  }

  /** Where the cut falls when `idx` is in the tree: every list root below
      it holds only `idx`'s node, and the root at the cut (unless it is the
      table's own) holds others too. */
  lemma {:induction false} CutLevelShape(t: Tree, idx: Path, s: nat, l: nat)
    requires (forall p :: p in t ==> |p| < |idx|) && Complete(t, |idx|)
    requires Present(t, idx) && s <= l < |idx|
    requires Singletons(t, idx, s, l) && (s == 0 || |t[idx[..s]]| > 1)
    ensures var c := CutLevel(t, idx, s, l);
      && s <= c < |idx|
      && Singletons(t, idx, c, |idx| - 1)
      && (c == 0 || |t[idx[..c]]| > 1)
    decreases |idx| - l
  {
    assert idx[..l] in t && idx[l] in t[idx[..l]];
    if l < |idx| - 1 {
      var q := idx[..l + 1];
      assert idx[l + 1] in t[q];
      OneOrTwo(t[q], idx[l + 1]);
      if |t[q]| > 1 {
        assert CutLevel(t, idx, s, l) == CutLevel(t, idx, l + 1, l + 1);
        CutLevelShape(t, idx, l + 1, l + 1);
      } else {
        assert CutLevel(t, idx, s, l) == CutLevel(t, idx, s, l + 1);
        SingletonsExtend(t, idx, s, l);
        CutLevelShape(t, idx, s, l + 1);
      }
    }
  }

  /** When `idx` is in the tree, marking from level `l`, reached with the
      marks of levels `s` to `l - 1`, marks the levels from the cut on. */
  lemma {:induction false} MarkPresent(t: Tree, idx: Path, s: nat, l: nat)
    requires (forall p :: p in t ==> |p| < |idx|) && Complete(t, |idx|)
    requires Present(t, idx) && s <= l < |idx|
    ensures MarkFrom(t, idx[..l], idx, l, Chain(idx, s, l)) == Chain(idx, CutLevel(t, idx, s, l), |idx|)
    decreases |idx| - l
  {
    assert idx[..l] in t && idx[l] in t[idx[..l]];
    if l == |idx| - 1 {
      MarkLast(t, idx, s, l);
    } else {
      MarkStep(t, idx, s, l);
      if |t[idx[..l + 1]]| > 1 {
        MarkPresent(t, idx, l + 1, l + 1);
      } else {
        MarkPresent(t, idx, s, l + 1);
      }
    }
  }

  lemma PrefixStep(t: Tree, idx: Path, l: nat)
    requires l < |idx| - 1 && PrefixPresent(t, idx, l) && Complete(t, |idx|)
    requires idx[l] in t[idx[..l]]
    ensures PrefixPresent(t, idx, l + 1)
  {
    assert idx[..l] + [idx[l]] == idx[..l + 1];
  }

  lemma PrefixLast(t: Tree, idx: Path)
    requires |idx| > 0 && PrefixPresent(t, idx, |idx| - 1)
    requires idx[|idx| - 1] in t[idx[..|idx| - 1]]
    ensures Present(t, idx)
  {
  }

  /** When `idx` is not in the tree, marking marks nothing. */
  lemma {:induction false} MarkAbsent(t: Tree, idx: Path, l: nat, marks: seq<Mark>)
    requires Complete(t, |idx|) && l < |idx| && PrefixPresent(t, idx, l)
    ensures MarkFrom(t, idx[..l], idx, l, marks) == [] || Present(t, idx)
    decreases |idx| - l
  {
    var rn, k := idx[..l], idx[l];
    if k in t[rn] {
      if l == |idx| - 1 {
        PrefixLast(t, idx);
      } else {
        PrefixStep(t, idx, l);
        var q := idx[..l + 1];
        assert rn + [k] == q;
        var marks' := if |t[q]| > 1 then [] else marks + [Mark(rn, k)];
        assert MarkFrom(t, rn, idx, l, marks) == MarkFrom(t, q, idx, l + 1, marks');
        MarkAbsent(t, idx, l + 1, marks');
      }
    }
  }

  /** One deletion of the chain, deepest first. */
  lemma RemovedStep(t: Tree, idx: Path, s: nat, e: nat)
    requires s < e <= |idx| && idx[..e - 1] in t
    ensures Removed(NodeDelete(t, idx[..e - 1], idx[e - 1]), idx, s, e - 1) == Removed(t, idx, s, e)
  {
    assert idx[..e - 1] + [idx[e - 1]] == idx[..e];
    var t1 := NodeDelete(t, idx[..e - 1], idx[e - 1]);
    var a, b := Removed(t1, idx, s, e - 1), Removed(t, idx, s, e);
    forall p ensures p in a <==> p in b {
      if p == idx[..e - 1] {
        assert |p| == e - 1;
      }
    }
    forall p | p in a ensures a[p] == b[p] {
      if p == idx[..e - 1] {
        assert |p| == e - 1;
      }
    }
  }

  lemma NodeDeleteKeeps(t: Tree, rn: Path, k: s32, p: Path)
    requires p in t && |p| <= |rn|
    ensures p in NodeDelete(t, rn, k)
  {
    assert |p| != |rn + [k]|;
  }

  /** Deleting the marks of levels `s` to `e - 1`, deepest first. */
  lemma {:induction false} DeleteChain(t: Tree, idx: Path, s: nat, e: nat)
    requires s <= e <= |idx|
    requires forall j :: s <= j < e ==> idx[..j] in t
    ensures DeleteMarks(t, Chain(idx, s, e)) == Removed(t, idx, s, e)
    decreases e
  {
    if e == s {
      assert Removed(t, idx, s, e) == t;
    } else {
      var c := Chain(idx, s, e);
      assert c[..|c| - 1] == Chain(idx, s, e - 1);
      var t1 := NodeDelete(t, idx[..e - 1], idx[e - 1]);
      assert DeleteMarks(t, c) == DeleteMarks(t1, Chain(idx, s, e - 1));
      forall j | s <= j < e - 1 ensures idx[..j] in t1 {
        NodeDeleteKeeps(t, idx[..e - 1], idx[e - 1], idx[..j]);
      }
      DeleteChain(t1, idx, s, e - 1);
      RemovedStep(t, idx, s, e);
    }
  }

  /** The first position where two different rows of one length differ. */
  function FirstDiff(x: Path, y: Path): (d: nat)
    requires |x| == |y| && x != y
    ensures d < |x| && x[d] != y[d] && x[..d] == y[..d]
    decreases |x|
  {
    if x[0] != y[0] then 0
    else
      assert x == [x[0]] + x[1..] && y == [y[0]] + y[1..];
      1 + FirstDiff(x[1..], y[1..])
  }

  /** Below the cut, a row of the tree that follows `idx` keeps following
      it. */
  lemma FollowsBelowCut(t: Tree, idx: Path, s: nat, x: Path, l: nat)
    requires s < l < |idx| && |x| == |idx| && x[..l] == idx[..l]
    requires Singletons(t, idx, s, |idx| - 1) && Present(t, x)
    ensures x[l] == idx[l]
  {
    assert x[l] in t[x[..l]];
  }

  /** The rows left after removing the chain of `idx` from the cut `s`:
      all rows but `idx`. */
  lemma RemovedRows(t: Tree, idx: Path, s: nat, x: Path)
    requires s < |idx| && idx[..s] in t && |x| == |idx|
    requires Singletons(t, idx, s, |idx| - 1)
    ensures Present(Removed(t, idx, s, |idx|), x) <==> Present(t, x) && x != idx
  {
    var r := Removed(t, idx, s, |idx|);
    if Present(r, x) {
      PresentMonotone(r, t, x);
      assert idx[..s] in r && idx[s] !in r[idx[..s]];
      assert x[..s] in r && x[s] in r[x[..s]];
    }
    if Present(t, x) && x != idx {
      var d := FirstDiff(x, idx);
      if d > s {
        FollowsBelowCut(t, idx, s, x, d);
      }
      forall j | 0 <= j < |x| ensures x[..j] in r && x[j] in r[x[..j]] {
        assert x[..j] in t && x[j] in t[x[..j]];
        if j > d {
          assert x[..j][d] != idx[..j][d];
        }
      }
    }
  }

  /** Below the cut, a list root on `idx`'s path holds only `idx`'s node,
      so whatever hangs under it is on the path too. */
  lemma BelowCutFollows(t: Tree, idx: Path, s: nat, p: Path)
    requires s < |idx| && Rooted(t) && Singletons(t, idx, s, |idx| - 1)
    requires p in t && s + 1 < |p| < |idx| && p[..|p| - 1] == idx[..|p| - 1]
    ensures p == idx[..|p|]
  {
    var l := |p| - 1;
    var pp := p[..l];
    assert pp in t && p[l] in t[pp];
    assert t[idx[..l]] == {idx[l]};
    LastStep(p, idx, l);
  }

  lemma LastStep(p: Path, idx: Path, l: nat)
    requires |p| == l + 1 && l < |idx| && p[..l] == idx[..l] && p[l] == idx[l]
    ensures p == idx[..l + 1]
  {
    assert p == p[..l] + [p[l]];
  }

  lemma RemovedRooted(t: Tree, idx: Path, s: nat)
    requires s < |idx| && Rooted(t) && (forall p :: p in t ==> |p| < |idx|)
    requires Singletons(t, idx, s, |idx| - 1)
    ensures Rooted(Removed(t, idx, s, |idx|))
  {
    var r := Removed(t, idx, s, |idx|);
    forall p | p in r && p != []
      ensures p[..|p| - 1] in r && p[|p| - 1] in r[p[..|p| - 1]]
    {
      if s + 1 < |p| && p[..|p| - 1] == idx[..|p| - 1] {
        BelowCutFollows(t, idx, s, p);
      }
      RemovedRootedAt(t, idx, s, p);
    }
  }

  /** One list root that survives the pruning still hangs under its list
      node, given that it lies on the removed chain only if it is on it. */
  lemma RemovedRootedAt(t: Tree, idx: Path, s: nat, p: Path)
    requires s < |idx| && p in t && 0 < |p| < |idx|
    requires !(s < |p| && p == idx[..|p|])
    requires p[..|p| - 1] in t && p[|p| - 1] in t[p[..|p| - 1]]
    requires s + 1 < |p| && p[..|p| - 1] == idx[..|p| - 1] ==> p == idx[..|p|]
    ensures p[..|p| - 1] in Removed(t, idx, s, |idx|)
    ensures p[|p| - 1] in Removed(t, idx, s, |idx|)[p[..|p| - 1]]
  {
    var pp, k := p[..|p| - 1], p[|p| - 1];
    assert p == pp + [k];
    if pp == idx[..s] {
      assert p != idx[..s + 1];
    }
  }

  lemma RemovedComplete(t: Tree, idx: Path, s: nat)
    requires s < |idx| && Complete(t, |idx|)
    ensures Complete(Removed(t, idx, s, |idx|), |idx|)
  {
    var r := Removed(t, idx, s, |idx|);
    forall p, k | p in r && k in r[p] && |p| + 1 < |idx|
      ensures p + [k] in r
    {
      var q := p + [k];
      assert q[..|p|] == p;
      if q == idx[..|q|] {
        assert p == idx[..|p|] && k == idx[|p|];
      }
    }
  }

  lemma RemovedFilled(t: Tree, idx: Path, s: nat)
    requires s < |idx| && idx[..s] in t && Filled(t, [])
    requires s == 0 || |t[idx[..s]]| > 1
    ensures Filled(Removed(t, idx, s, |idx|), [])
  {
    if s > 0 && idx[s] in t[idx[..s]] {
      OneOrTwo(t[idx[..s]], idx[s]);
    }
  }

  /** Removal's whole effect: the table loses row `idx`, keeps every other
      row, and its tree stays well formed. */
  lemma RemoveSound(t: Tree, idx: Path, x: Path)
    requires |idx| > 0 && Wf(t, |idx|) && |x| == |idx|
    ensures Wf(RemoveFrom(t, idx), |idx|)
    ensures Present(RemoveFrom(t, idx), x) <==> Present(t, x) && x != idx
  {
    assert idx[..0] == [];
    assert Chain(idx, 0, 0) == [];
    MarkAbsent(t, idx, 0, []);
    if Present(t, idx) {
      MarkPresent(t, idx, 0, 0);
      CutLevelShape(t, idx, 0, 0);
      var c := CutLevel(t, idx, 0, 0);
      DeleteChain(t, idx, c, |idx|);
      RemovedRows(t, idx, c, x);
      RemovedRooted(t, idx, c);
      RemovedComplete(t, idx, c);
      RemovedFilled(t, idx, c);
    }
  }

  lemma PresentAppend(t: Tree, p: Path, k: s32)
    requires Present(t, p) && p in t && k in t[p]
    ensures Present(t, p + [k])
  {
    var q := p + [k];
    assert q[..|p|] == p;
    forall j | 0 <= j < |q| ensures q[..j] in t && q[j] in t[q[..j]] {
      if j < |p| {
        assert q[..j] == p[..j];
      }
    }
  }

  /** From any list root on a path of the tree that has a node, a whole
      row can be followed down. */
  lemma {:induction false} ExtendRow(t: Tree, depth: nat, p: Path)
    requires Complete(t, depth) && Filled(t, [])
    requires p in t && |p| < depth && Present(t, p) && t[p] != {}
    ensures exists x :: |x| == depth && Present(t, x)
    decreases depth - |p|
  {
    var k :| k in t[p];
    var q := p + [k];
    PresentAppend(t, p, k);
    if |q| < depth {
      assert q in t && q != [];
      ExtendRow(t, depth, q);
    }
  }

  /** The table has no rows exactly when its list root node is empty: the
      test `mib2_remove_*` and `mib2_udp_unbind` use to turn off traversal
      of the table. */
  lemma NoRowsIffEmptyRoot(t: Tree, depth: nat)
    requires depth > 0 && Wf(t, depth)
    ensures t[[]] == {} <==> forall x :: |x| == depth ==> !Present(t, x)
  {
    forall x | |x| == depth && Present(t, x) ensures t[[]] != {} {
      assert x[..0] == [];
    }
    if t[[]] != {} {
      assert Present(t, []);
      ExtendRow(t, depth, []);
    }
  }

  /** Adding a row the table already has allocates nothing and changes
      nothing, whatever the heap would do. */
  lemma {:induction false} InsertExistingFrom(t: Tree, idx: Path, l: nat, fails: seq<bool>)
    requires l < |idx| && Present(t, idx)
    ensures InsertFrom(t, idx[..l], idx, l, fails) == Walk(t, fails)
    decreases |idx| - l
  {
    assert idx[..l] in t && idx[l] in t[idx[..l]];
    if l < |idx| - 1 {
      assert idx[..l] + [idx[l]] == idx[..l + 1];
      InsertExistingFrom(t, idx, l + 1, fails);
    }
  }

  lemma InsertExisting(t: Tree, idx: Path, fails: seq<bool>)
    requires |idx| > 0 && [] in t && Present(t, idx)
    ensures InsertFrom(t, [], idx, 0, fails) == Walk(t, fails)
  {
    assert idx[..0] == [];
    InsertExistingFrom(t, idx, 0, fails);
  }

  /** `t` is well formed and holds the rows of `t0` and the row `idx`. */
  ghost predicate RowAdded(t0: Tree, t: Tree, idx: Path)
  {
    Wf(t, |idx|) && forall x :: |x| == |idx| ==> (Present(t, x) <==> Present(t0, x) || x == idx)
  }

  /** `t` is well formed and holds the rows of `t0` other than `idx`. */
  ghost predicate RowDropped(t0: Tree, t: Tree, idx: Path)
  {
    Wf(t, |idx|) && forall x :: |x| == |idx| ==> (Present(t, x) <==> Present(t0, x) && x != idx)
  }

  /** An insertion whose allocations all succeed adds exactly its row. */
  lemma InsertAddsRow(t: Tree, idx: Path)
    requires |idx| > 0 && Wf(t, |idx|)
    ensures RowAdded(t, InsertFrom(t, [], idx, 0, []).tree, idx)
  {
    forall x | |x| == |idx| {
      InsertSound(t, idx, x);
    }
    InsertSound(t, idx, idx);
  }

  /** A removal takes away exactly its row. */
  lemma RemoveDropsRow(t: Tree, idx: Path)
    requires |idx| > 0 && Wf(t, |idx|)
    ensures RowDropped(t, RemoveFrom(t, idx), idx)
  {
    forall x | |x| == |idx| {
      RemoveSound(t, idx, x);
    }
    RemoveSound(t, idx, idx);
  }

  /** `InsertAddsRow` for any allocation outcome, as the table updates use
      it. */
  lemma InsertMeaning(t: Tree, idx: Path, fails: seq<bool>)
    requires [] in t
    ensures |idx| > 0 && fails == [] && Wf(t, |idx|) ==> RowAdded(t, InsertFrom(t, [], idx, 0, fails).tree, idx)
  {
    if |idx| > 0 && fails == [] && Wf(t, |idx|) {
      InsertAddsRow(t, idx);
    }
  }

  /** `RemoveDropsRow` for any tree, as the table updates use it. */
  lemma RemoveMeaning(t: Tree, idx: Path)
    requires [] in t
    ensures |idx| > 0 && Wf(t, |idx|) ==> RowDropped(t, RemoveFrom(t, idx), idx)
  {
    if |idx| > 0 && Wf(t, |idx|) {
      RemoveDropsRow(t, idx);
    }
  }

  /** Removing a row the table does not have changes nothing. */
  lemma RemoveAbsent(t: Tree, idx: Path)
    requires |idx| > 0 && Wf(t, |idx|) && !Present(t, idx)
    ensures RemoveFrom(t, idx) == t
  {
    assert idx[..0] == [];
    MarkAbsent(t, idx, 0, []);
  }

  /** Adding a row and removing it again leaves the other rows as they
      were, provided every allocation succeeded. */
  lemma {:induction false} InsertThenRemove(t: Tree, idx: Path, x: Path)
    requires |idx| > 0 && Wf(t, |idx|) && |x| == |idx|
    ensures Present(RemoveFrom(InsertFrom(t, [], idx, 0, []).tree, idx), x) <==> Present(t, x) && x != idx
  {
    InsertSound(t, idx, x);
    var t1 := InsertFrom(t, [], idx, 0, []).tree;
    assert [] in t1;
    RemoveSound(t1, idx, x);
  }

  /** A table of three-component rows holding the one row 1.5.9. */
  const RowOneFiveNine: Tree := map[[] := {1}, [1] := {5}, [1, 5] := {9}]

  lemma RowOneFiveNineRooted()
    ensures Rooted(RowOneFiveNine)
  {
    var t := RowOneFiveNine;
    assert [1, 5][..1] == [1];
    forall p | p in t && p != []
      ensures p[..|p| - 1] in t && p[|p| - 1] in t[p[..|p| - 1]]
    {
      assert p == [1] || p == [1, 5];
    }
  }

  lemma RowOneFiveNineComplete()
    ensures Complete(RowOneFiveNine, 3)
  {
    var t := RowOneFiveNine;
    assert [1] + [5] == [1, 5] && [] + [1] == [1];
    forall p, k | p in t && k in t[p] && |p| + 1 < 3
      ensures p + [k] in t
    {
      assert p == [] || p == [1];
    }
  }

  lemma RowOneFiveNineFilled()
    ensures (forall p :: p in RowOneFiveNine ==> |p| < 3) && Filled(RowOneFiveNine, [])
  {
    var t := RowOneFiveNine;
    forall p | p in t
      ensures |p| < 3 && (p != [] ==> t[p] != {})
    {
      assert p == [] || p == [1] || p == [1, 5];
    }
  }

  lemma RowOneFiveNineWf()
    ensures Wf(RowOneFiveNine, 3)
    ensures Present(RowOneFiveNine, [1, 5, 9])
  {
    RowOneFiveNineRooted();
    RowOneFiveNineComplete();
    RowOneFiveNineFilled();
    var x: Path := [1, 5, 9];
    assert x[..0] == [] && x[..1] == [1] && x[..2] == [1, 5];
  }

  /** When a list node cannot be allocated the walk carries on at the same
      list root with the next component: adding 2.1.7 to the table holding
      1.5.9 when the first allocation fails puts 7 beside 5 under the root
      of 1, a list node of the middle level with no root below it, so the
      tree is no longer complete. */
  lemma InsertAfterFailedNode()
    ensures InsertFrom(RowOneFiveNine, [], [2, 1, 7], 0, [true]).tree == RowOneFiveNine[[1] := {5, 7}]
    ensures !Complete(RowOneFiveNine[[1] := {5, 7}], 3)
  {
    var t := RowOneFiveNine;
    var idx: Path := [2, 1, 7];
    var r := t[[1] := {5, 7}];
    assert [] + [1] == [1];
    assert InsertFrom(t, [], idx, 0, [true]) == InsertFrom(t, [], idx, 1, []);
    assert InsertFrom(t, [], idx, 1, []) == InsertFrom(t, [1], idx, 2, []);
    assert idx[2] == 7 && t[[1]] + {7} == {5, 7};
    assert InsertFrom(t, [1], idx, 2, []) == Walk(r, []);
    assert [1] + [7] == [1, 7] && [1, 7][1] != [1, 5][1];
    assert [1] in r && 7 in r[[1]] && [1] + [7] !in r;
  }
}
