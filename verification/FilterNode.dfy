/** One node of the label trie, with its growable array of children. */
module FilterNodes {
  import opened Bytes
  import opened Names

  const INITIAL_CHILDREN_CAPACITY := 4

  function GrownCapacity(capacity: nat): nat {
    if capacity == 0 then INITIAL_CHILDREN_CAPACITY else capacity * 2
  }

  function Pow2(k: nat): (power: nat)
    ensures power > 0
  {
    if k == 0 then 1 else 2 * Pow2(k - 1)
  }

  ghost predicate IsCapacity(capacity: nat) {
    capacity == 0 || exists k: nat :: capacity == INITIAL_CHILDREN_CAPACITY * Pow2(k)
  }

  lemma GrownIsCapacity(capacity: nat)
    requires IsCapacity(capacity)
    ensures IsCapacity(GrownCapacity(capacity)) && GrownCapacity(capacity) > capacity
    ensures capacity == 0 ==> GrownCapacity(capacity) == 4
    ensures forall k: nat :: capacity == 4 * Pow2(k) ==> GrownCapacity(capacity) == 4 * Pow2(k + 1)
  {
    if capacity == 0 {
      assert GrownCapacity(capacity) == INITIAL_CHILDREN_CAPACITY * Pow2(0);
    } else {
      var k: nat :| capacity == INITIAL_CHILDREN_CAPACITY * Pow2(k);
      assert GrownCapacity(capacity) == INITIAL_CHILDREN_CAPACITY * Pow2(k + 1);
    }
  }

  class FilterNode {
    var name: Option<Label>  // the node's label; the root has none
    var children: array?<FilterNode?>
    var childrenCount: nat
    var childrenCapacity: nat
    var isBlocked: bool
    ghost var kids: seq<FilterNode>  // the children in the order they were added

    ghost const key: seq<Label>  // the domain suffix the node stands for

    constructor (ghost key: seq<Label>)
      ensures this.key == key
      ensures name.None? && !isBlocked && children == null
      ensures LocalOk() && kids == []
    {
      this.key := key;
      kids := [];
      name := None;
      children := null;
      childrenCount := 0;
      childrenCapacity := 0;
      isBlocked := false;
    }

    ghost predicate LocalOk()
      reads this, children
    {
      && childrenCount <= childrenCapacity
      && IsCapacity(childrenCapacity)
      && childrenCount == |kids|
      && if children == null then childrenCapacity == 0
         else children.Length == childrenCapacity && children[..childrenCount] == kids
    }

    method FindChild(wanted: Label) returns (child: FilterNode?)
      requires LocalOk()
      ensures child == null ==> forall k :: k in kids ==> k.name != Some(wanted)
      ensures child != null ==> child in kids && child.name == Some(wanted)
    {
      var i := 0;
      while i < childrenCount
        invariant i <= childrenCount
        invariant forall j :: 0 <= j < i ==> kids[j].name != Some(wanted)
      {
        assert children[i] == kids[i];
        if children[i].name == Some(wanted) {
          return children[i];
        }
        i := i + 1;
      }
      child := null;
    }

    /** Appends a child, doubling a full array first; `memory` tells whether that allocation succeeds. */
    method AddChild(child: FilterNode, memory: bool) returns (rc: int)
      requires LocalOk()
      modifies this`children, this`childrenCount, this`childrenCapacity, this`kids, children
      ensures LocalOk()
      ensures rc == 0 || rc == -1
      ensures rc == 0 <==> memory || old(childrenCount < childrenCapacity)
      ensures kids == old(kids) + if rc == 0 then [child] else []
      ensures rc != 0 ==> unchanged(this) && (children != null ==> unchanged(children))
      ensures rc == 0 ==> children != null && (children == old(children) || fresh(children))
      ensures childrenCapacity ==
              old(if rc == 0 && childrenCount == childrenCapacity then GrownCapacity(childrenCapacity)
                  else childrenCapacity)
    {
      if childrenCount >= childrenCapacity {
        GrownIsCapacity(childrenCapacity);
        var newCapacity := GrownCapacity(childrenCapacity);
        if !memory {
          return -1;
        }
        var newChildren := new FilterNode?[newCapacity](_ => null);
        var i := 0;
        while i < childrenCount
          invariant i <= childrenCount && newChildren.Length == newCapacity
          invariant LocalOk()
          invariant forall j :: 0 <= j < i ==> newChildren[j] == children[j]
          modifies newChildren
        {
          newChildren[i] := children[i];
          i := i + 1;
        }
        children := newChildren;
        childrenCapacity := newCapacity;
      }
      children[childrenCount] := child;
      childrenCount := childrenCount + 1;
      kids := kids + [child];
      rc := 0;
    }
  }
}
