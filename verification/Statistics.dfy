/** The numbers printed about a loaded filter, counted over the trie and related to the block list. */
module Statistics {
  import opened Names
  import opened Blocklist
  import opened FilterNodes
  import opened Trie

  datatype Totals = Totals(domains: nat, nodes: nat, depth: nat)

  class FilterStats {
    var totalDomains: nat
    var totalNodes: nat
    var maxDepth: nat

    constructor ()
      ensures totalDomains == totalNodes == maxDepth == 0
    {
      totalDomains, totalNodes, maxDepth := 0, 0, 0;
    }

    ghost function Current(): Totals
      reads this
    {
      Totals(totalDomains, totalNodes, maxDepth)
    }

    method CountNode(blocked: bool, depth: nat)
      modifies this
      ensures Current() == WithNode(old(Current()), blocked, depth)
    {
      totalNodes := totalNodes + 1;
      if blocked {
        totalDomains := totalDomains + 1;
      }
      if depth > maxDepth {
        maxDepth := depth;
      }
    }
  }

  /** The totals with one more node. */
  function WithNode(t: Totals, blocked: bool, depth: nat): Totals {
    Totals(t.domains + (if blocked then 1 else 0), t.nodes + 1, if depth > t.depth then depth else t.depth)
  }

  /** The names in a set that lie at or below a suffix. */
  ghost function Under(names: set<seq<Label>>, p: seq<Label>): set<seq<Label>> {
    set q | q in names && EndsWith(q, p)
  }

  ghost function StrictlyUnder(names: set<seq<Label>>, p: seq<Label>): set<seq<Label>> {
    set q | q in names && q != p && EndsWith(q, p)
  }

  lemma UnderSplit(names: set<seq<Label>>, p: seq<Label>)
    ensures Under(names, p) == (if p in names then {p} else {}) + StrictlyUnder(names, p)
  {
    assert EndsWith(p, p);
  }

  ghost function UnderAny(names: set<seq<Label>>, keys: seq<seq<Label>>): set<seq<Label>> {
    if keys == [] then {} else UnderAny(names, keys[..|keys| - 1]) + Under(names, keys[|keys| - 1])
  }

  ghost function KeysOf(kids: seq<FilterNode>): (keys: seq<seq<Label>>)
    ensures |keys| == |kids| && forall i :: 0 <= i < |kids| ==> keys[i] == kids[i].key
  {
    seq(|kids|, i requires 0 <= i < |kids| => kids[i].key)
  }

  // The keys one label longer than p, each once.
  ghost predicate ChildKeys(keys: seq<seq<Label>>, p: seq<Label>) {
    && (forall i :: 0 <= i < |keys| ==> keys[i] != [] && keys[i][1..] == p)
    && (forall i, j :: 0 <= i < j < |keys| ==> keys[i] != keys[j])
  }

  /** d is the largest length in a non-empty set of names, or d0 where that is larger. */
  ghost predicate Deepest(names: set<seq<Label>>, d0: nat, d: nat) {
    && d >= d0
    && (forall q :: q in names ==> |q| <= d)
    && (d == d0 || exists q :: q in names && |q| == d)
  }

  lemma {:induction false} UnderAnyIs(names: set<seq<Label>>, keys: seq<seq<Label>>, q: seq<Label>)
    ensures q in UnderAny(names, keys) <==> q in names && exists i :: 0 <= i < |keys| && EndsWith(q, keys[i])
  {
    if keys != [] {
      var n := |keys| - 1;
      UnderAnyIs(names, keys[..n], q);
      assert forall i :: 0 <= i < n ==> keys[..n][i] == keys[i];
      if exists i :: 0 <= i < |keys| && EndsWith(q, keys[i]) {
        var i :| 0 <= i < |keys| && EndsWith(q, keys[i]);
        assert i < n ==> EndsWith(q, keys[..n][i]);
      }
    }
  }

  // The names below different children are different names.
  lemma UnderDisjoint(names: set<seq<Label>>, keys: seq<seq<Label>>, n: nat, p: seq<Label>)
    requires ChildKeys(keys, p) && n < |keys|
    ensures UnderAny(names, keys[..n]) * Under(names, keys[n]) == {}
  {
    forall q | q in UnderAny(names, keys[..n])
      ensures q !in Under(names, keys[n])
    {
      UnderAnyIs(names, keys[..n], q);
      var i :| 0 <= i < n && EndsWith(q, keys[..n][i]);
      assert |keys[i]| == |keys[n]| == |p| + 1;
    }
  }

  /** Counting nodes with these keys, some of them blocked, takes the totals from a to b. */
  ghost predicate Adds(known: set<seq<Label>>, domains: set<seq<Label>>, a: Totals, b: Totals) {
    && b.nodes == a.nodes + |known|
    && b.domains == a.domains + |domains|
    && Deepest(known, a.depth, b.depth)
  }

  lemma AddsBoth(known: set<seq<Label>>, domains: set<seq<Label>>, known': set<seq<Label>>, domains': set<seq<Label>>,
                 a: Totals, b: Totals, c: Totals)
    requires Adds(known, domains, a, b) && Adds(known', domains', b, c)
    requires known * known' == {} && domains * domains' == {}
    ensures Adds(known + known', domains + domains', a, c)
  {
    if c.depth != a.depth {
      if c.depth != b.depth {
        var q :| q in known' && |q| == c.depth;
        assert q in known + known';
      } else {
        var q :| q in known && |q| == c.depth;
        assert q in known + known';
      }
    }
  }

  lemma KidsAreChildKeys(trie: Filter, p: seq<Label>)
    requires trie.Valid() && p in trie.nodes
    ensures forall kid :: kid in trie.nodes[p].kids ==> |p| < |kid.key| <= MAX_DEPTH
    ensures ChildKeys(KeysOf(trie.nodes[p].kids), p)
    ensures forall kid :: kid in trie.nodes[p].kids ==> kid.key in trie.nodes && trie.nodes[kid.key] == kid
  {
    var kids := trie.nodes[p].kids;
    assert trie.KidsLead(p);
    forall i | 0 <= i < |kids|
      ensures kids[i].key in trie.nodes && trie.nodes[kids[i].key] == kids[i]
      ensures kids[i].key != [] && kids[i].key[1..] == p
    {
      assert trie.Leads(p, kids[i]);
    }
    forall kid | kid in kids
      ensures |p| < |kid.key| <= MAX_DEPTH
    {
      var i :| 0 <= i < |kids| && kids[i] == kid;
      assert kid.key[1..] == p;
      trie.TrieShape(kid.key);
    }
  }

  /** Everything below p is below one of its children. */
  lemma BelowIsUnderKids(trie: Filter, p: seq<Label>, names: set<seq<Label>>)
    requires trie.Valid() && p in trie.nodes && names <= trie.Known()
    ensures UnderAny(names, KeysOf(trie.nodes[p].kids)) == StrictlyUnder(names, p)
  {
    var keys := KeysOf(trie.nodes[p].kids);
    forall q
      ensures q in UnderAny(names, keys) <==> q in StrictlyUnder(names, p)
    {
      UnderAnyIs(names, keys, q);
      if q in StrictlyUnder(names, p) {
        UnderSomeKid(trie, p, q);
      }
      if i :| 0 <= i < |keys| && EndsWith(q, keys[i]) {
        KidAt(trie, p, i);
        KidsAreChildKeys(trie, p);
        assert q[|q| - |p|..] == keys[i][1..];
      }
    }
  }

  lemma UnderSomeKid(trie: Filter, p: seq<Label>, q: seq<Label>)
    requires trie.Valid() && p in trie.nodes && q in trie.nodes && q != p && EndsWith(q, p)
    ensures exists i :: 0 <= i < |trie.nodes[p].kids| && EndsWith(q, KeysOf(trie.nodes[p].kids)[i])
  {
    var kids := trie.nodes[p].kids;
    var k := |q| - |p| - 1;
    trie.SuffixKnown(q, k);
    var c := q[k..];
    assert c[1..] == p;
    trie.NodeAt(c);
    assert trie.Hangs(c);
    var i :| 0 <= i < |kids| && kids[i] == trie.nodes[c];
    assert EndsWith(q, KeysOf(kids)[i]);
  }

  /** count_stats_recursive(): counts the node for p and everything below it. */
  method CountStats(trie: Filter, ghost p: seq<Label>, node: FilterNode, depth: nat, stats: FilterStats)
    requires trie.Valid() && p in trie.nodes && trie.nodes[p] == node && depth == |p|
    requires stats !in trie.Repr
    modifies stats
    ensures Adds(Under(trie.Known(), p), Under(trie.domains, p), old(stats.Current()), stats.Current())
    decreases MAX_DEPTH - |p|, 1
  {
    ghost var known, domains := trie.Known(), trie.domains;
    ghost var start := stats.Current();
    trie.NodeAt(p);
    stats.CountNode(node.isBlocked, depth);
    ghost var here := stats.Current();
    trie.StaysValid();
    CountChildren(trie, p, node, depth + 1, stats);
    AddsNode(known, domains, p, start, here, stats.Current());
  }

  lemma AddsNode(known: set<seq<Label>>, domains: set<seq<Label>>, p: seq<Label>, a: Totals, b: Totals, c: Totals)
    requires p in known
    requires b == WithNode(a, p in domains, |p|)
    requires Adds(StrictlyUnder(known, p), StrictlyUnder(domains, p), b, c)
    ensures Adds(Under(known, p), Under(domains, p), a, c)
  {
    UnderSplit(known, p);
    UnderSplit(domains, p);
    var own := if p in domains then {p} else {};
    AddsOne(p, own, a, b);
    AddsBoth({p}, own, StrictlyUnder(known, p), StrictlyUnder(domains, p), a, b, c);
  }

  lemma AddsOne(p: seq<Label>, own: set<seq<Label>>, a: Totals, b: Totals)
    requires own <= {p} && b == WithNode(a, p in own, |p|)
    ensures Adds({p}, own, a, b)
  {
    assert p in {p};
    assert own == if p in own then {p} else {};
  }

  /** The loop over the children, which also counts the whole trie from its root. */
  method CountChildren(trie: Filter, ghost p: seq<Label>, node: FilterNode, depth: nat, stats: FilterStats)
    requires trie.Valid() && p in trie.nodes && trie.nodes[p] == node && depth == |p| + 1
    requires stats !in trie.Repr
    modifies stats
    ensures Adds(StrictlyUnder(trie.Known(), p), StrictlyUnder(trie.domains, p), old(stats.Current()), stats.Current())
    decreases MAX_DEPTH - |p|, 0
  {
    ghost var known, domains := trie.Known(), trie.domains;
    ghost var start := stats.Current();
    ghost var keys := KeysOf(node.kids);
    trie.NodeAt(p);
    var i := 0;
    while i < node.childrenCount
      invariant 0 <= i <= node.childrenCount
      invariant Adds(UnderAny(known, keys[..i]), UnderAny(domains, keys[..i]), start, stats.Current())
    {
      trie.StaysValid();
      var kid := node.children[i];
      KidAt(trie, p, i);
      ghost var before := stats.Current();
      CountStats(trie, kid.key, kid, depth, stats);
      trie.StaysValid();
      AddsKid(trie, p, i, start, before, stats.Current());
      i := i + 1;
    }
    assert keys[..i] == keys;
    AddsAllKids(trie, p, start, stats.Current());
  }

  lemma AddsAllKids(trie: Filter, p: seq<Label>, a: Totals, b: Totals)
    requires trie.Valid() && p in trie.nodes
    requires var keys := KeysOf(trie.nodes[p].kids);
      Adds(UnderAny(trie.Known(), keys), UnderAny(trie.domains, keys), a, b)
    ensures Adds(StrictlyUnder(trie.Known(), p), StrictlyUnder(trie.domains, p), a, b)
  {
    BelowIsUnderKids(trie, p, trie.Known());
    BelowIsUnderKids(trie, p, trie.domains);
  }

  lemma KidAt(trie: Filter, p: seq<Label>, i: nat)
    requires trie.Valid() && p in trie.nodes && i < |trie.nodes[p].kids|
    ensures var kid := trie.nodes[p].kids[i];
      && kid.key in trie.nodes && trie.nodes[kid.key] == kid
      && |kid.key| == |p| + 1 <= MAX_DEPTH
  {
    KidsAreChildKeys(trie, p);
    assert trie.nodes[p].kids[i] in trie.nodes[p].kids;
  }

  lemma AddsKid(trie: Filter, p: seq<Label>, i: nat, a: Totals, b: Totals, c: Totals)
    requires trie.Valid() && p in trie.nodes && i < |trie.nodes[p].kids|
    requires var keys := KeysOf(trie.nodes[p].kids);
      && Adds(UnderAny(trie.Known(), keys[..i]), UnderAny(trie.domains, keys[..i]), a, b)
      && Adds(Under(trie.Known(), keys[i]), Under(trie.domains, keys[i]), b, c)
    ensures var keys := KeysOf(trie.nodes[p].kids);
      Adds(UnderAny(trie.Known(), keys[..i + 1]), UnderAny(trie.domains, keys[..i + 1]), a, c)
  {
    KidsAreChildKeys(trie, p);
    AddsKey(trie.Known(), trie.domains, KeysOf(trie.nodes[p].kids), i, p, a, b, c);
  }

  lemma AddsKey(known: set<seq<Label>>, domains: set<seq<Label>>, keys: seq<seq<Label>>, i: nat, p: seq<Label>,
                a: Totals, b: Totals, c: Totals)
    requires ChildKeys(keys, p) && i < |keys|
    requires Adds(UnderAny(known, keys[..i]), UnderAny(domains, keys[..i]), a, b)
    requires Adds(Under(known, keys[i]), Under(domains, keys[i]), b, c)
    ensures Adds(UnderAny(known, keys[..i + 1]), UnderAny(domains, keys[..i + 1]), a, c)
  {
    assert keys[..i + 1][..i] == keys[..i];
    UnderDisjoint(known, keys, i, p);
    UnderDisjoint(domains, keys, i, p);
    AddsBoth(UnderAny(known, keys[..i]), UnderAny(domains, keys[..i]),
             Under(known, keys[i]), Under(domains, keys[i]), a, b, c);
  }

  /** The node for p lies on the path to one of the names. */
  ghost predicate OnPath(names: set<seq<Label>>, p: seq<Label>) {
    exists d :: d in names && EndsWith(d, p)
  }

  /** Every node lies on the path to a blocked name. */
  ghost predicate Tight(known: set<seq<Label>>, domains: set<seq<Label>>) {
    forall p :: p in known <==> p == [] || OnPath(domains, p)
  }

  /** The distinct non-empty suffixes of some names. */
  ghost function ProperSuffixes(domains: set<seq<Label>>): set<seq<Label>> {
    set d, k | d in domains && 0 <= k < |d| :: d[k..]
  }

  lemma TightIsSuffixes(known: set<seq<Label>>, domains: set<seq<Label>>)
    requires Tight(known, domains)
    ensures known == {[]} + ProperSuffixes(domains) && [] !in ProperSuffixes(domains)
    ensures |known| == |ProperSuffixes(domains)| + 1
  {
    forall p
      ensures p in known <==> p in {[]} + ProperSuffixes(domains)
    {
      if p != [] && p in known {
        var d :| d in domains && EndsWith(d, p);
        assert d[|d| - |p|..] == p;
      }
      if p in ProperSuffixes(domains) {
        var d, k :| d in domains && 0 <= k < |d| && d[k..] == p;
        assert EndsWith(d, p);
      }
    }
    assert known == {[]} + ProperSuffixes(domains);
  }

  /** filter_print_stats(): the totals over the whole trie. */
  method FilterStatistics(trie: Filter) returns (stats: FilterStats)
    requires trie.Valid()
    ensures fresh(stats)
    ensures stats.totalDomains == |trie.domains|
    ensures stats.totalNodes == |trie.Known()| - 1
    ensures Deepest(trie.Known(), 0, stats.maxDepth)
    ensures Tight(trie.Known(), trie.domains) ==>
              stats.totalNodes == |ProperSuffixes(trie.domains)| && Deepest(trie.domains, 0, stats.maxDepth)
  {
    stats := new FilterStats();
    CountChildren(trie, [], trie.root, 1, stats);
    WholeTrie(trie.Known(), trie.domains, stats.Current());
    if Tight(trie.Known(), trie.domains) {
      TightIsSuffixes(trie.Known(), trie.domains);
    }
  }

  lemma WholeTrie(known: set<seq<Label>>, domains: set<seq<Label>>, totals: Totals)
    requires [] in known && domains <= known - {[]}
    requires Adds(StrictlyUnder(known, []), StrictlyUnder(domains, []), Totals(0, 0, 0), totals)
    ensures totals.domains == |domains| && totals.nodes == |known| - 1
    ensures Deepest(known, 0, totals.depth)
    ensures Tight(known, domains) ==> Deepest(domains, 0, totals.depth)
  {
    assert StrictlyUnder(known, []) == known - {[]};
    assert StrictlyUnder(domains, []) == domains;
    if Tight(known, domains) {
      TightDepth(known, domains, totals.depth);
    }
  }

  // In a tight trie the deepest node is a blocked name.
  lemma TightDepth(known: set<seq<Label>>, domains: set<seq<Label>>, depth: nat)
    requires Tight(known, domains) && Deepest(known - {[]}, 0, depth)
    requires domains <= known - {[]}
    ensures Deepest(domains, 0, depth)
  {
    if depth != 0 {
      var q :| q in known - {[]} && |q| == depth;
      assert q in known;
      var d :| d in domains && EndsWith(d, q);
      assert d in known - {[]};
    }
  }

  /**
   * An insertion keeps the trie tight, so after successful insertions only, the nodes other than
   * the root are exactly the distinct non-empty suffixes of the blocked names.
   */
  lemma InsertionKeepsTight(known: set<seq<Label>>, domains: set<seq<Label>>, name: seq<Label>)
    requires Tight(known, domains)
    ensures Tight(known + Suffixes(name), domains + {name})
  {
    forall p
      ensures p in known + Suffixes(name) <==> p == [] || OnPath(domains + {name}, p)
    {
      SuffixesAre(name, p);
      if p in Suffixes(name) {
        assert name in domains + {name} && EndsWith(name, p);
      }
      if d :| d in domains && EndsWith(d, p) {
        assert d in domains + {name};
      }
    }
  }
}
