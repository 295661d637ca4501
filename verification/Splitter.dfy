/** Cutting a name into labels from the back, so that the top-level label comes first. */
module Splitter {
  import opened Bytes
  import opened Names

  /**
   * Scans backwards for the start of each label and fills one slot per label. The slot count is
   * the number of dots plus one, whatever the scan finds: a name with an empty label leaves a
   * slot unfilled, and only such a name does.
   */
  method SplitDomainLabels(domain: CString, alloc: Allocator) returns (rc: int, labels: array<Option<Label>>)
    ensures fresh(labels)
    ensures rc == 0 || rc == -1
    ensures rc == 0 ==> labels.Length == |Fields(domain)|
    ensures rc == 0 ==> ((forall k :: 0 <= k < labels.Length ==> labels[k].Some?) <==> AllNonEmpty(Fields(domain)))
    ensures rc == 0 && AllNonEmpty(Fields(domain)) ==>
              && AllShort(Fields(domain))
              && forall k :: 0 <= k < labels.Length ==> labels[k] == Some(Fields(domain)[labels.Length - 1 - k])
    ensures AllNonEmpty(Fields(domain)) ==>
              (rc == 0 <==> AllShort(Fields(domain)) && Enough(alloc, |Fields(domain)| + 1))
  {
    labels := new Option<Label>[0];
    var count := CountLabels(domain);
    if !alloc(0) {
      NotEnough(alloc, 0, count + 1);
      return -1, labels;
    }
    var slots := new Option<Label>[count](_ => None);
    rc := FillSlots(domain, slots, alloc);
    if rc == 0 {
      labels := slots;
    }
  }

  /** The backward scan, one slot after the other. */
  method FillSlots(domain: CString, slots: array<Option<Label>>, alloc: Allocator) returns (rc: int)
    requires slots.Length == |Fields(domain)| && alloc(0)
    requires forall k :: 0 <= k < slots.Length ==> slots[k].None?
    modifies slots
    ensures rc == 0 || rc == -1
    ensures rc == 0 ==> Filled(slots[..], Fields(domain))
    ensures rc == 0 && AllNonEmpty(Fields(domain)) ==> Enough(alloc, slots.Length + 1)
    ensures rc != 0 && AllNonEmpty(Fields(domain)) && AllShort(Fields(domain)) ==> !Enough(alloc, slots.Length + 1)
  {
    ghost var fields := Fields(domain);
    var end := |domain|;
    var idx := 0;
    ghost var lost := 0;  // dots swallowed by labels
    assert domain[..end] == domain;
    ghost var now := slots[..];
    ScanStart(now, fields);
    while end > 0
      invariant end <= |domain| && (end == |domain| || domain[end] == DOT)
      invariant 0 <= idx < slots.Length
      invariant now == slots[..] && Scanned(now, fields, idx, Fields(domain[..end]), lost)
      invariant Enough(alloc, idx + 1)
    {
      var start := LabelStart(domain, end);
      ScanWord(now, domain, idx, start, end, lost);
      if end - start > MAX_LABEL_LEN {
        return -1;
      }
      if !alloc(idx + 1) {
        NotEnough(alloc, idx + 1, slots.Length + 1);
        return -1;
      }
      slots[idx] := Some(domain[start..end]);
      now := now[idx := Some(domain[start..end])];
      lost := if domain[end - 1] == DOT then lost + 1 else lost;
      idx := idx + 1;
      if start == 0 {
        ScanEnd(now, fields, idx, lost);
        return 0;
      }
      end := start - 1;
    }
    ScanStopped(now, fields, idx, lost);
    return 0;
  }

  // Every slot is filled exactly if no field is empty, and then with the fields in reverse.
  ghost predicate Filled(slots: seq<Option<Label>>, fields: seq<Label>) {
    && ((forall k :: 0 <= k < |slots| ==> slots[k].Some?) <==> AllNonEmpty(fields))
    && (AllNonEmpty(fields) ==>
          && AllShort(fields) && |slots| == |fields|
          && forall k :: 0 <= k < |slots| ==> slots[k] == Some(fields[|slots| - 1 - k]))
  }

  ghost predicate FilledFrom(slot: Option<Label>, field: Label) {
    slot == Some(field) && field != [] && |field| <= MAX_LABEL_LEN
  }

  // `idx` slots are filled and `rest` lists the fields still ahead of the scan.
  ghost predicate Scanned(slots: seq<Option<Label>>, fields: seq<Label>, idx: nat, rest: seq<Label>, lost: nat) {
    && idx + |rest| + lost == |slots| == |fields|
    && (forall k :: 0 <= k < |slots| ==> (slots[k].Some? <==> k < idx))
    && (lost > 0 ==> !AllNonEmpty(fields))
    && (lost == 0 ==>
          && rest == fields[..|fields| - idx]
          && forall k :: 0 <= k < idx ==> FilledFrom(slots[k], fields[|fields| - 1 - k]))
  }

  lemma ScanStart(slots: seq<Option<Label>>, fields: seq<Label>)
    requires |slots| == |fields| && forall k :: 0 <= k < |slots| ==> slots[k].None?
    ensures Scanned(slots, fields, 0, fields, 0)
  {
  }

  lemma ScanStep(slots: seq<Option<Label>>, fields: seq<Label>, idx: nat, rest: seq<Label>, lost: nat,
                 word: Label, rest': seq<Label>)
    requires Scanned(slots, fields, idx, rest, lost) && word != []
    requires word[|word| - 1] != DOT ==> rest == rest' + [word]
    requires word[|word| - 1] == DOT ==> |rest| == |rest'| + 2 && !AllNonEmpty(fields)
    ensures AllNonEmpty(fields) && AllShort(fields) ==> |word| <= MAX_LABEL_LEN
    ensures var lost' := if word[|word| - 1] == DOT then lost + 1 else lost;
      |word| <= MAX_LABEL_LEN ==> Scanned(slots[idx := Some(word)], fields, idx + 1, rest', lost')
  {
    if word[|word| - 1] != DOT && lost == 0 {
      assert rest[|rest'|] == word == fields[|fields| - 1 - idx];
      assert rest' == rest[..|rest'|] == fields[..|fields| - idx - 1];
    }
  }

  // One round of the scan, on the name itself.
  lemma ScanWord(slots: seq<Option<Label>>, domain: seq<byte>, idx: nat, start: nat, end: nat, lost: nat)
    requires start < end <= |domain| && (end == |domain| || domain[end] == DOT)
    requires (start == 0 || domain[start - 1] == DOT) && DOT !in domain[start..end - 1]
    requires Scanned(slots, Fields(domain), idx, Fields(domain[..end]), lost)
    ensures AllNonEmpty(Fields(domain)) && AllShort(Fields(domain)) ==> end - start <= MAX_LABEL_LEN
    ensures idx < |slots|
    ensures var rest := if start > 0 then Fields(domain[..start - 1]) else [];
            var lost' := if domain[end - 1] == DOT then lost + 1 else lost;
      end - start <= MAX_LABEL_LEN ==>
        Scanned(slots[idx := Some(domain[start..end])], Fields(domain), idx + 1, rest, lost')
  {
    var word, ahead, rest := ScanFacts(domain, start, end);
    ScanStep(slots, Fields(domain), idx, ahead, lost, word, rest);
  }

  lemma ScanFacts(domain: seq<byte>, start: nat, end: nat) returns (word: Label, ahead: seq<Label>, rest: seq<Label>)
    requires start < end <= |domain| && (end == |domain| || domain[end] == DOT)
    requires (start == 0 || domain[start - 1] == DOT) && DOT !in domain[start..end - 1]
    ensures word == domain[start..end] && word != [] && word[|word| - 1] == domain[end - 1]
    ensures ahead == Fields(domain[..end])
    ensures rest == if start > 0 then Fields(domain[..start - 1]) else []
    ensures word[|word| - 1] != DOT ==> ahead == rest + [word]
    ensures word[|word| - 1] == DOT ==> |ahead| == |rest| + 2 && !AllNonEmpty(Fields(domain))
  {
    LastField(domain, start, end);
    if domain[end - 1] == DOT {
      EmptyFieldBefore(domain, end);
    }
    word, ahead := domain[start..end], Fields(domain[..end]);
    rest := if start > 0 then Fields(domain[..start - 1]) else [];
  }

  lemma ScanEnd(slots: seq<Option<Label>>, fields: seq<Label>, idx: nat, lost: nat)
    requires Scanned(slots, fields, idx, [], lost)
    ensures Filled(slots, fields) && (AllNonEmpty(fields) ==> idx == |fields|)
  {
    if lost == 0 {
      forall i | 0 <= i < |fields|
        ensures fields[i] != [] && |fields[i]| <= MAX_LABEL_LEN
      {
        assert FilledFrom(slots[|fields| - 1 - i], fields[|fields| - 1 - (|fields| - 1 - i)]);
      }
    } else {
      assert slots[idx].None?;
    }
  }

  // The scan ran out of bytes behind a dot.
  lemma ScanStopped(slots: seq<Option<Label>>, fields: seq<Label>, idx: nat, lost: nat)
    requires Scanned(slots, fields, idx, [[]], lost)
    ensures Filled(slots, fields) && !AllNonEmpty(fields)
  {
    assert slots[idx].None?;
    assert lost == 0 ==> fields[0] == fields[..|fields| - idx][0] == [];
  }

  /** The number of dots plus one. */
  method CountLabels(domain: seq<byte>) returns (count: nat)
    ensures count == |Fields(domain)|
  {
    count := 1;
    var p := 0;
    while p < |domain|
      invariant p <= |domain| && count == |Fields(domain[..p])|
    {
      assert domain[..p + 1] == domain[..p] + [domain[p]];
      FieldCountSnoc(domain[..p], domain[p]);
      if domain[p] == DOT {
        count := count + 1;
      }
      p := p + 1;
    }
    assert domain[..p] == domain;
  }

  /** Walks back from `end` to the byte after the previous dot; the byte at `end - 1` is taken unseen. */
  method LabelStart(domain: seq<byte>, end: nat) returns (start: nat)
    requires 0 < end <= |domain|
    ensures start < end
    ensures start == 0 || domain[start - 1] == DOT
    ensures DOT !in domain[start..end - 1]
  {
    start := end - 1;
    while start > 0 && domain[start - 1] != DOT
      invariant start < end && DOT !in domain[start..end - 1]
    {
      assert domain[start - 1..end - 1] == [domain[start - 1]] + domain[start..end - 1];
      start := start - 1;
    }
  }

  lemma {:induction false} FieldCountSnoc(s: seq<byte>, c: byte)
    ensures |Fields(s + [c])| == |Fields(s)| + if c == DOT then 1 else 0
  {
    if s != [] {
      assert (s + [c])[1..] == s[1..] + [c];
      FieldCountSnoc(s[1..], c);
    }
  }

  // What one step of the scan takes off the fields of domain[..end].
  lemma LastField(domain: seq<byte>, start: nat, end: nat)
    requires start < end <= |domain|
    requires start == 0 || domain[start - 1] == DOT
    requires DOT !in domain[start..end - 1]
    ensures var before := if start > 0 then Fields(domain[..start - 1]) else [];
      && (domain[end - 1] != DOT ==> Fields(domain[..end]) == before + [domain[start..end]])
      && (domain[end - 1] == DOT ==> |Fields(domain[..end])| == |before| + 2)
  {
    var last := domain[start..end];
    assert last == domain[start..end - 1] + [domain[end - 1]];
    FieldsDotFree(last);
    if domain[end - 1] == DOT {
      FieldsConcat(domain[start..end - 1], []);
      assert last == domain[start..end - 1] + [DOT] + [];
      FieldsDotFree(domain[start..end - 1]);
    }
    if start > 0 {
      FieldsConcat(domain[..start - 1], last);
      assert domain[..end] == domain[..start - 1] + [DOT] + last;
    } else {
      assert domain[..end] == last;
    }
  }

  // A dot just before the end of a field means an empty field.
  lemma EmptyFieldBefore(domain: seq<byte>, end: nat)
    requires 0 < end <= |domain| && domain[end - 1] == DOT
    requires end == |domain| || domain[end] == DOT
    ensures !AllNonEmpty(Fields(domain))
  {
    var front, rest := Fields(domain[..end - 1]), domain[end..];
    FieldsConcat(domain[..end - 1], rest);
    assert domain == domain[..end - 1] + [DOT] + rest;
    assert Fields(domain)[|front|] == Fields(rest)[0] == [];
  }
}
