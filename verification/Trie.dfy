/**
 * The block list as a trie of labels, top-level label first. The nodes are described by a ghost
 * map from domain suffixes to nodes: the root has key [], and the child of the node for "com"
 * with label "ads" has key ["ads", "com"].
 */
module Trie {
  import opened Bytes
  import opened Names
  import opened Normalizer
  import opened Splitter
  import opened Blocklist
  import opened FilterNodes

  /** A name and all its ancestors, the root included. */
  ghost function Suffixes(labels: seq<Label>): set<seq<Label>> {
    {labels} + if labels == [] then {} else Suffixes(labels[1..])
  }

  lemma {:induction false} SuffixesAre(labels: seq<Label>, s: seq<Label>)
    ensures s in Suffixes(labels) <==> EndsWith(labels, s)
  {
    if labels != [] {
      SuffixesAre(labels[1..], s);
      if |s| < |labels| {
        assert labels[|labels| - |s|..] == labels[1..][|labels| - 1 - |s|..];
      }
    }
  }

  // No node was lost, and the new ones are suffixes of one name.
  ghost predicate OnlyAdds(known: set<seq<Label>>, known': set<seq<Label>>, labels: seq<Label>) {
    known <= known' && forall q :: q in known' && q !in known ==> EndsWith(labels, q)
  }

  lemma AddsKey(known: set<seq<Label>>, before: set<seq<Label>>, after: set<seq<Label>>, labels: seq<Label>, k: nat)
    requires k <= |labels| && OnlyAdds(known, before, labels) && after == before + {labels[k..]}
    ensures OnlyAdds(known, after, labels)
  {
  }

  lemma AllSuffixesAdded(known: set<seq<Label>>, known': set<seq<Label>>, labels: seq<Label>)
    requires OnlyAdds(known, known', labels) && forall k :: 0 <= k <= |labels| ==> labels[k..] in known'
    ensures known' == known + Suffixes(labels)
  {
    forall q
      ensures q in known' <==> q in known || q in Suffixes(labels)
    {
      SuffixesAre(labels, q);
      assert EndsWith(labels, q) ==> labels[|labels| - |q|..] == q;
    }
  }

  lemma NextKey(labels: seq<Label>, k: nat) returns (q: seq<Label>)
    requires IsPath(labels) && k < |labels|
    ensures q == labels[k..] && q != [] && q[0] == labels[k] && q[1..] == labels[k + 1..] && IsPath(q)
  {
    SuffixIsPath(labels, k);
    q := labels[k..];
  }

  /** Clean-up and splitting, as every insertion and query starts: the labels from the last to the first. */
  method ReversedLabels(domain: CString, alloc: Allocator) returns (rc: int, slots: array<Option<Label>>)
    ensures fresh(slots)
    ensures rc == 0 || rc == -1
    ensures rc == 0 ==> LabelList(domain).Some? && InReverse(slots[..], LabelList(domain).value)
    ensures rc == 0 <==> LabelList(domain).Some? && Enough(alloc, |LabelList(domain).value| + 1)
  {
    var normalized := new byte[NAME_BUFFER];
    rc := NormalizeDomain(domain, normalized);
    if rc == 0 {
      NormalizedOutput(domain, NAME_BUFFER);
      rc, slots := SplitDomainLabels(CStr(normalized[..]), alloc);
    } else {
      slots := new Option<Label>[0];
    }
  }

  ghost predicate InReverse(slots: seq<Option<Label>>, labels: seq<Label>) {
    && |slots| == |labels|
    && forall k :: 0 <= k < |slots| ==> slots[k] == Some(labels[|slots| - 1 - k])
  }

  class Filter {
    const root: FilterNode
    ghost var nodes: map<seq<Label>, FilterNode>
    ghost var domains: set<seq<Label>>  // the names marked as blocked
    ghost var owner: map<array<FilterNode?>, seq<Label>>  // whose children an array holds
    ghost var Repr: set<object>

    ghost predicate Valid()
      reads this, Repr
    {
      && this in Repr
      && [] in nodes && nodes[[]] == root
      && domains <= nodes.Keys - {[]}
      && Owned()
      && (forall p {:trigger IsPath(p)} :: p in nodes ==> IsPath(p))
      && (forall p {:trigger Hangs(p)} :: p in nodes ==> Hangs(p))
      && (forall p {:trigger KidsLead(p)} :: p in nodes ==> KidsLead(p))
    }

    // Nodes and arrays belong to the trie, none is shared, and each node is well formed on its own.
    ghost predicate Owned()
      reads this, Repr
    {
      forall p :: p in nodes ==> OwnedNode(p, nodes[p])
    }

    ghost predicate OwnedNode(p: seq<Label>, node: FilterNode)
      reads this, Repr
    {
      && node in Repr && node.key == p
      && (node.isBlocked <==> p in domains)
      && (node.children != null ==> node.children in Repr && node.children in owner && owner[node.children] == p)
      && node.LocalOk()
    }

    // The node for p carries the first label of p and is a child of the node for the rest of p.
    ghost predicate Hangs(p: seq<Label>)
      requires Owned() && p in nodes
      reads this, Repr
    {
      if p == [] then nodes[p].name == None
      else nodes[p].name == Some(p[0]) && p[1..] in nodes && nodes[p] in nodes[p[1..]].kids
    }

    // Each child of the node for p is the node for p with one more label in front, and occurs once.
    ghost predicate KidsLead(p: seq<Label>)
      requires Owned() && p in nodes
      reads this, Repr
    {
      var kids := nodes[p].kids;
      && (forall i :: 0 <= i < |kids| ==> Leads(p, kids[i]))
      && (forall i, j :: 0 <= i < j < |kids| ==> kids[i] != kids[j])
    }

    ghost predicate Leads(p: seq<Label>, kid: FilterNode)
      requires Owned()
      reads this, Repr
    {
      kid in Repr && kid.name.Some? && [kid.name.value] + p in nodes && nodes[[kid.name.value] + p] == kid
    }

    /** The suffixes that have a node. */
    ghost function Known(): set<seq<Label>>
      reads this
    {
      nodes.Keys
    }

    constructor ()
      ensures Valid() && fresh(Repr)
      ensures Known() == {[]} && domains == {}
    {
      root := new FilterNode([]);
      new;
      domains := {};
      owner := map[];
      nodes := map[[] := root];
      Repr := {this, root};
    }

    /** filter_add_domain(): walks and extends the path of the name, then marks its last node. */
    method AddDomain(domain: CString, alloc: Allocator) returns (rc: int)
      requires Valid()
      modifies Repr
      ensures Valid() && fresh(Repr - old(Repr))
      ensures rc == 0 || rc == -1
      ensures rc == 0 ==> LabelList(domain).Some?
      ensures Plenty(alloc) && LabelList(domain).Some? ==> rc == 0
      ensures rc == 0 ==> domains == old(domains) + {LabelList(domain).value}
      ensures rc == 0 ==> Known() == old(Known()) + Suffixes(LabelList(domain).value)
      ensures rc != 0 ==> domains == old(domains)
      ensures LabelList(domain).None? ==> Known() == old(Known())
      ensures LabelList(domain).Some? ==> OnlyAdds(old(Known()), Known(), LabelList(domain).value)
    {
      var slots;
      rc, slots := ReversedLabels(domain, alloc);
      if rc != 0 {
        if Plenty(alloc) && LabelList(domain).Some? {
          PlentyIsEnough(alloc, |LabelList(domain).value| + 1);
        }
        return;
      }
      ghost var labels := LabelList(domain).value;
      LabelListIsPath(domain);
      var node := Insert(labels, slots[..], alloc);
      if node == null {
        return -1;
      }
      AddedSuffixes(old(Known()), labels);
      Mark(labels, node);
    }

    /** The walk of filter_add_domain() down to the node of a name, over labels that come in reverse order. */
    method Insert(ghost labels: seq<Label>, slots: seq<Option<Label>>, alloc: Allocator) returns (node: FilterNode?)
      requires Valid() && IsPath(labels)
      requires InReverse(slots, labels)
      modifies Repr
      ensures Valid() && fresh(Repr - old(Repr)) && domains == old(domains)
      ensures Plenty(alloc) ==> node != null
      ensures node != null ==> labels in nodes && nodes[labels] == node
      ensures OnlyAdds(old(Known()), Known(), labels)
    {
      var count := |slots|;
      var current := root;
      ghost var p: seq<Label> := [];
      var i := 0;
      while i < count
        invariant 0 <= i <= count
        invariant Valid() && fresh(Repr - old(Repr))
        invariant p == labels[count - i..] && p in nodes && nodes[p] == current
        invariant domains == old(domains)
        invariant OnlyAdds(old(Known()), Known(), labels)
      {
        var name := slots[i].value;
        ghost var known := Known();
        ghost var q := NextKey(labels, count - 1 - i);
        var child := Descend(q, current, name, alloc, count + 1 + 3 * i);
        if child == null {
          return null;
        }
        AddsKey(old(Known()), known, Known(), labels, count - 1 - i);
        current := child;
        p := q;
        i := i + 1;
      }
      assert p == labels;
      node := current;
    }

    /** is_domain_blocked(): a failure of any of its allocations makes it answer "not blocked". */
    method IsDomainBlocked(domain: CString, alloc: Allocator) returns (blocked: bool)
      requires Valid()
      ensures blocked <==> Verdict(domains, domain) && Enough(alloc, |LabelList(domain).value| + 1)
    {
      var rc, slots := ReversedLabels(domain, alloc);
      if rc != 0 {
        return false;
      }
      blocked := Lookup(LabelList(domain).value, slots[..]);
    }

    /** The walk of is_domain_blocked() over labels that come in reverse order. */
    method Lookup(ghost labels: seq<Label>, slots: seq<Option<Label>>) returns (blocked: bool)
      requires Valid() && InReverse(slots, labels)
      ensures blocked <==> Covers(domains, labels)
    {
      var count := |slots|;
      var current := root;
      ghost var p: seq<Label> := [];
      assert Hangs([]);
      var i := 0;
      while i < count
        invariant 0 <= i <= count
        invariant p == labels[count - i..] && p in nodes && nodes[p] == current
        invariant forall l :: l in domains && EndsWith(labels, l) ==> |l| > i
      {
        var name := slots[i].value;
        assert labels[count - 1 - i..] == [name] + p;
        var child := Step(p, current, name);
        if child == null {
          forall l | l in domains
            ensures !EndsWith(labels, l)
          {
            if EndsWith(labels, l) {
              assert l[|l| - i - 1..] == [name] + p;
              SuffixKnown(l, |l| - i - 1);
            }
          }
          return false;
        }
        if child.isBlocked {
          assert EndsWith(labels, [name] + p) && [name] + p in domains;
          return true;
        }
        forall l | l in domains && EndsWith(labels, l)
          ensures |l| > i + 1
        {
          assert |l| == i + 1 ==> l == [name] + p;
        }
        current := child;
        p := [name] + p;
        i := i + 1;
      }
      blocked := false;
    }

    // ----- the steps of the walks

    /** Finds or creates the node for q below the node for q without its first label. */
    method Descend(ghost q: seq<Label>, current: FilterNode, wanted: Label, alloc: Allocator, first: nat)
      returns (child: FilterNode?)
      requires Valid() && IsPath(q) && q != [] && q[0] == wanted
      requires q[1..] in nodes && nodes[q[1..]] == current
      modifies Repr
      ensures Valid() && fresh(Repr - old(Repr))
      ensures Plenty(alloc) ==> child != null
      ensures domains == old(domains)
      ensures child == null ==> Known() == old(Known())
      ensures child != null ==> q in nodes && nodes[q] == child
      ensures child != null ==> Known() == old(Known()) + {q}
    {
      ghost var p := q[1..];
      assert q == [wanted] + p;
      child := Step(p, current, wanted);
      if child == null {
        child := Extend(p, current, wanted, alloc, first);
      }
    }

    method Mark(ghost p: seq<Label>, current: FilterNode)
      requires Valid() && p in nodes && p != [] && nodes[p] == current
      modifies this`domains, current`isBlocked
      ensures Valid() && domains == old(domains) + {p}
    {
      current.isBlocked := true;
      domains := domains + {p};
      forall r | r in nodes
        ensures IsPath(r) && OwnedNode(r, nodes[r])
      {
        assert IsPath(r) && old(OwnedNode(r, nodes[r]));
      }
      forall r | r in nodes
        ensures Hangs(r) && KidsLead(r)
      {
        MarkKeepsShape(r);
      }
    }

    twostate lemma MarkKeepsShape(r: seq<Label>)
      requires old(Valid()) && r in nodes && Owned()
      requires unchanged(`nodes) && unchanged(`Repr)
      requires forall q :: q in nodes ==> nodes[q].name == old(nodes[q].name) && nodes[q].kids == old(nodes[q].kids)
      ensures Hangs(r) && KidsLead(r)
    {
      assert old(Hangs(r) && KidsLead(r));
      forall i | 0 <= i < |nodes[r].kids|
        ensures Leads(r, nodes[r].kids[i])
      {
        assert old(Leads(r, nodes[r].kids[i]));
      }
    }

    twostate lemma StaysValid()
      requires old(Valid()) && unchanged(old(Repr))
      ensures Valid() && unchanged(this)
    {
    }

    lemma NodeAt(p: seq<Label>)
      requires Valid() && p in nodes
      ensures nodes[p].LocalOk() && (nodes[p].isBlocked <==> p in domains)
    {
      assert OwnedNode(p, nodes[p]);
    }

    /**
     * The shape of every reachable trie: no node and no array of children is shared, each child has
     * one parent; bounded depth, proper labels, distinct siblings, doubled capacities.
     */
    lemma TrieShape(p: seq<Label>)
      requires Valid() && p in nodes
      ensures |p| <= MAX_DEPTH && ProperLabels(p)
      ensures forall i, j :: 0 <= i < j < |nodes[p].kids| ==> nodes[p].kids[i].name != nodes[p].kids[j].name
      ensures forall q :: q in nodes && q != p ==> Apart(nodes[p], nodes[q])
      ensures root !in nodes[p].kids && !root.isBlocked
      ensures nodes[p].childrenCount <= nodes[p].childrenCapacity && IsCapacity(nodes[p].childrenCapacity)
    {
      assert IsPath(p) && KidsLead(p) && OwnedNode(p, nodes[p]) && OwnedNode([], root);
      PathDepth(p);
      forall i, j | 0 <= i < j < |nodes[p].kids|
        ensures nodes[p].kids[i].name != nodes[p].kids[j].name
      {
        assert Leads(p, nodes[p].kids[i]) && Leads(p, nodes[p].kids[j]);
      }
      KidKeys(p);
      forall q | q in nodes && q != p
        ensures Apart(nodes[p], nodes[q])
      {
        assert OwnedNode(q, nodes[q]);
        KidKeys(q);
      }
    }

    // Two nodes with nothing in common: neither themselves nor their arrays nor any child.
    ghost predicate Apart(a: FilterNode, b: FilterNode)
      reads a, b
    {
      && a != b
      && (a.children == null || a.children != b.children)
      && forall kid :: kid in a.kids ==> kid !in b.kids
    }

    // The key of a child tells its parent.
    lemma KidKeys(p: seq<Label>)
      requires Valid() && p in nodes
      ensures forall kid :: kid in nodes[p].kids ==> kid.key != [] && kid.key[1..] == p
    {
      assert KidsLead(p);
      forall kid | kid in nodes[p].kids
        ensures kid.key != [] && kid.key[1..] == p
      {
        var i :| 0 <= i < |nodes[p].kids| && nodes[p].kids[i] == kid;
        assert Leads(p, nodes[p].kids[i]);
        var q := [kid.name.value] + p;
        assert OwnedNode(q, nodes[q]);
      }
    }

    lemma AddedSuffixes(known: set<seq<Label>>, labels: seq<Label>)
      requires Valid() && labels in nodes && OnlyAdds(known, Known(), labels)
      ensures Known() == known + Suffixes(labels)
    {
      forall k | 0 <= k <= |labels|
        ensures labels[k..] in Known()
      {
        SuffixKnown(labels, k);
      }
      AllSuffixesAdded(known, Known(), labels);
    }

    /** Every suffix of a known name is known. */
    lemma {:induction false} SuffixKnown(l: seq<Label>, k: nat)
      requires Valid() && l in nodes && k <= |l|
      ensures l[k..] in nodes
    {
      if k > 0 {
        assert Hangs(l);
        SuffixKnown(l[1..], k - 1);
        assert l[1..][k - 1..] == l[k..];
      } else {
        assert l[k..] == l;
      }
    }

    /** The node for p with one more label, or null when there is none. */
    method Step(ghost p: seq<Label>, current: FilterNode, wanted: Label) returns (child: FilterNode?)
      requires Valid() && p in nodes && nodes[p] == current
      ensures child == null <==> [wanted] + p !in nodes
      ensures child != null ==> nodes[[wanted] + p] == child
    {
      child := current.FindChild(wanted);
      assert KidsLead(p);
      ghost var q := [wanted] + p;
      assert q in nodes ==> nodes[q] in current.kids && nodes[q].name == Some(wanted) by {
        assert q[1..] == p;
        assert q in nodes ==> Hangs(q);
      }
    }

    /** Creates the missing child of the node for p, unless an allocation fails. */
    method Extend(ghost p: seq<Label>, current: FilterNode, wanted: Label, alloc: Allocator, first: nat)
      returns (child: FilterNode?)
      requires Valid() && p in nodes && nodes[p] == current
      requires [wanted] + p !in nodes && IsPath([wanted] + p)
      modifies this`nodes, this`owner, this`Repr, current, current.children
      ensures Valid() && fresh(Repr - old(Repr))
      ensures Plenty(alloc) ==> child != null
      ensures child == null ==> nodes == old(nodes)
      ensures child != null ==> nodes == old(nodes)[[wanted] + p := child]
    {
      child := NewNode([wanted] + p, wanted, alloc, first);
      if child != null {
        var rc := Link(p, current, child, alloc(first + 2));
        if rc != 0 {
          child := null;
        }
      }
    }

    /** Hooks a new node below the node for p. */
    method Link(ghost p: seq<Label>, current: FilterNode, child: FilterNode, memory: bool) returns (rc: int)
      requires Valid() && p in nodes && nodes[p] == current
      requires ChildFor(p, child) && child.LocalOk()
      modifies this`nodes, this`owner, this`Repr, current, current.children
      ensures rc == 0 || rc == -1
      ensures rc == 0 <== memory
      ensures rc != 0 ==> unchanged(this) && unchanged(current)
      ensures rc != 0 && current.children != null ==> unchanged(current.children)
      ensures rc == 0 ==> Valid() && nodes == old(nodes)[child.key := child]
      ensures rc == 0 ==> Repr == old(Repr) + {child, current.children}
      ensures rc == 0 ==> SameOrFresh(current)
    {
      rc := Hook(p, current, child, memory);
      if rc == 0 {
        GrowthKeepsValid(child);
      }
    }

    // A node that is not yet part of the trie, made for a missing child of the node for p.
    ghost predicate ChildFor(p: seq<Label>, child: FilterNode)
      reads this, child
    {
      && child !in Repr && child.key !in nodes && IsPath(child.key)
      && child.key != [] && child.key[1..] == p && child.name == Some(child.key[0])
      && child.children == null && child.kids == [] && !child.isBlocked
    }

    // Adds the new node to its parent and to the ghost map.
    method Hook(ghost p: seq<Label>, current: FilterNode, child: FilterNode, memory: bool) returns (rc: int)
      requires Valid() && p in nodes && nodes[p] == current
      requires ChildFor(p, child) && child.LocalOk()
      modifies this`nodes, this`owner, this`Repr, current, current.children
      ensures rc == 0 || rc == -1
      ensures rc == 0 <== memory
      ensures rc != 0 ==> unchanged(this) && unchanged(current)
      ensures rc != 0 && current.children != null ==> unchanged(current.children)
      ensures rc == 0 ==> Grew(child) && SameOrFresh(current)
    {
      rc := Append(p, current, child, memory);
      if rc == 0 {
        nodes := nodes[child.key := child];
        owner := owner[current.children := p];
        Repr := Repr + {child, current.children};
      }
    }

    // The array part of it, before the ghost map learns about the new node.
    method Append(ghost p: seq<Label>, current: FilterNode, child: FilterNode, memory: bool) returns (rc: int)
      requires Valid() && p in nodes && nodes[p] == current && child !in Repr
      modifies current, current.children
      ensures rc == 0 || rc == -1
      ensures rc == 0 <== memory
      ensures rc != 0 ==> unchanged(current) && (current.children != null ==> unchanged(current.children))
      ensures rc == 0 ==> current.LocalOk() && current.kids == old(current.kids) + [child]
      ensures rc == 0 ==> SameOrFresh(current)
      ensures current.name == old(current.name) && current.isBlocked == old(current.isBlocked)
      ensures OthersKept(p)
    {
      rc := current.AddChild(child, memory);
    }

    // The children stand in the array they stood in, or in a new one.
    twostate predicate SameOrFresh(node: FilterNode)
      reads node
    {
      node.children != null && (node.children == old(node.children) || fresh(node.children))
    }

    twostate predicate OthersKept(p: seq<Label>)
      reads *
    {
      forall r :: r in old(nodes) && r != p ==> unchanged(old(nodes[r])) && old(nodes[r]).LocalOk()
    }

    /** A node with a copy of the label, or null when one of the two allocations fails. */
    static method NewNode(ghost key: seq<Label>, wanted: Label, alloc: Allocator, first: nat)
      returns (child: FilterNode?)
      ensures child == null <==> !(alloc(first) && alloc(first + 1))
      ensures child != null ==> fresh(child) && child.key == key && child.name == Some(wanted) && child.children == null
      ensures child != null ==> child.LocalOk() && child.kids == [] && !child.isBlocked
    {
      if !alloc(first) {
        return null;
      }
      var node := new FilterNode(key);
      if !alloc(first + 1) {
        return null;
      }
      node.name := Some(wanted);
      child := node;
    }

    // One new node was linked in below its parent, and nothing else was touched.
    twostate predicate Grew(child: FilterNode)
      reads *
    {
      && child.key != [] && child.key[1..] in old(nodes) && child.key !in old(nodes)
      && nodes == old(nodes)[child.key := child] && domains == old(domains)
      && child !in old(Repr) && child.LocalOk() && child.name == Some(child.key[0])
      && child.children == null && child.kids == [] && !child.isBlocked
      && OthersKept(child.key[1..])
      && var parent := nodes[child.key[1..]];
         && parent.LocalOk() && parent.kids == old(parent.kids) + [child] && parent.children != null
         && parent.name == old(parent.name) && parent.isBlocked == old(parent.isBlocked)
         && Repr == old(Repr) + {child, parent.children} && owner == old(owner)[parent.children := child.key[1..]]
    }

    twostate lemma GrowthKeepsValid(child: FilterNode)
      requires old(Valid()) && Grew(child) && IsPath(child.key)
      requires SameOrFresh(nodes[child.key[1..]])
      ensures Valid()
    {
      GrowthKeepsOwnership(child);
      GrowthKeepsHanging(child);
      GrowthKeepsLeading(child);
      forall r | r in nodes
        ensures IsPath(r)
      {
        assert r in old(nodes) ==> IsPath(r);
      }
    }

    twostate lemma GrowthKeepsOwnership(child: FilterNode)
      requires old(Valid()) && Grew(child)
      requires SameOrFresh(nodes[child.key[1..]])
      ensures Owned()
    {
      forall r | r in nodes
        ensures OwnedNode(r, nodes[r])
      {
        assert r in old(nodes) ==> old(OwnedNode(r, nodes[r]));
      }
    }

    twostate lemma GrowthKeepsHanging(child: FilterNode)
      requires old(Valid()) && Grew(child) && Owned()
      ensures forall r :: r in nodes ==> Hangs(r)
    {
      var parent := nodes[child.key[1..]];
      assert parent.kids[|parent.kids| - 1] == child;
      forall r | r in nodes
        ensures Hangs(r)
      {
        assert r in old(nodes) ==> old(Hangs(r));
      }
    }

    twostate lemma GrowthKeepsLeading(child: FilterNode)
      requires old(Valid()) && Grew(child) && Owned()
      ensures forall r :: r in nodes ==> KidsLead(r)
    {
      GrownKidsLead(child);
      forall r | r in nodes
        ensures KidsLead(r)
      {
        assert r in old(nodes) ==> old(KidsLead(r));
      }
    }

    twostate lemma GrownKidsLead(child: FilterNode)
      requires old(Valid()) && Grew(child) && Owned()
      ensures forall r, i :: r in nodes && 0 <= i < |nodes[r].kids| ==> Leads(r, nodes[r].kids[i])
    {
      forall r, i | r in nodes && 0 <= i < |nodes[r].kids|
        ensures Leads(r, nodes[r].kids[i])
      {
        assert old(KidsLead(r));
        if i < |old(nodes[r].kids)| {
          assert nodes[r].kids[i] == old(nodes[r].kids[i]) && old(Leads(r, nodes[r].kids[i]));
        } else {
          assert nodes[r].kids[i] == child && [child.key[0]] + r == child.key;
        }
      }
    }
  }
}
