/** Domain names as text and as lists of labels, and the two ways between them. */
module Names {
  import opened Bytes

  type Label = seq<byte>

  /** The fields between the dots of a text; a text with k dots has k + 1 fields. */
  function Fields(s: seq<byte>): (fields: seq<Label>)
    ensures |fields| >= 1
  {
    if s == [] then [[]]
    else
      var rest := Fields(s[1..]);
      if s[0] == DOT then [[]] + rest else [[s[0]] + rest[0]] + rest[1..]
  }

  /** The labels with a dot between neighbours. */
  function Join(labels: seq<Label>): seq<byte> {
    if labels == [] then []
    else if |labels| == 1 then labels[0]
    else labels[0] + [DOT] + Join(labels[1..])
  }

  predicate AllNonEmpty(labels: seq<Label>) {
    forall i :: 0 <= i < |labels| ==> labels[i] != []
  }

  predicate AllDotFree(labels: seq<Label>) {
    forall i :: 0 <= i < |labels| ==> DOT !in labels[i]
  }

  predicate AllShort(labels: seq<Label>) {
    forall i :: 0 <= i < |labels| ==> |labels[i]| <= MAX_LABEL_LEN
  }

  /** The labels of a name that can be stored: 1..63 bytes each, none of them a dot. */
  predicate ProperLabels(labels: seq<Label>) {
    AllNonEmpty(labels) && AllDotFree(labels) && AllShort(labels)
  }

  predicate EndsWith<T(==)>(s: seq<T>, t: seq<T>) {
    |t| <= |s| && s[|s| - |t|..] == t
  }

  lemma {:induction false} FieldsDotFree(s: seq<byte>)
    ensures AllDotFree(Fields(s))
    ensures DOT !in s ==> Fields(s) == [s]
    ensures DOT in s ==> |Fields(s)| >= 2
  {
    if s != [] {
      FieldsDotFree(s[1..]);
      assert s == [s[0]] + s[1..];
    }
  }

  /** The bytes of the fields are bytes of the text. */
  lemma {:induction false} FieldBytes(s: seq<byte>, field: Label)
    requires field in Fields(s)
    ensures forall b :: b in field ==> b in s
  {
    if s != [] {
      var rest := Fields(s[1..]);
      assert s == [s[0]] + s[1..];
      if s[0] == DOT {
        if field in rest {
          FieldBytes(s[1..], field);
        }
      } else {
        FieldBytes(s[1..], rest[0]);
        if field in rest[1..] {
          FieldBytes(s[1..], field);
        }
      }
    }
  }

  lemma {:induction false} FieldsConcat(a: seq<byte>, b: seq<byte>)
    ensures Fields(a + [DOT] + b) == Fields(a) + Fields(b)
  {
    var s := a + [DOT] + b;
    if a == [] {
      assert s[1..] == b;
    } else {
      assert s[1..] == a[1..] + [DOT] + b;
      FieldsConcat(a[1..], b);
    }
  }

  /** Joining undoes splitting, on every text. */
  lemma {:induction false} JoinFields(s: seq<byte>)
    ensures Join(Fields(s)) == s
  {
    if s != [] {
      var rest := Fields(s[1..]);
      JoinFields(s[1..]);
      assert s == [s[0]] + s[1..];
      if s[0] == DOT {
        assert ([[]] + rest)[1..] == rest;
      } else {
        JoinWithHead(s[0], rest);
      }
    }
  }

  lemma JoinWithHead(b: byte, fields: seq<Label>)
    requires fields != []
    ensures Join([[b] + fields[0]] + fields[1..]) == [b] + Join(fields)
  {
    assert ([[b] + fields[0]] + fields[1..])[1..] == fields[1..];
  }

  /** Splitting undoes joining, for a non-empty list of labels without dots. */
  lemma {:induction false} FieldsJoin(labels: seq<Label>)
    requires labels != [] && AllDotFree(labels)
    ensures Fields(Join(labels)) == labels
  {
    FieldsDotFree(labels[0]);
    if |labels| > 1 {
      FieldsJoin(labels[1..]);
      FieldsConcat(labels[0], Join(labels[1..]));
      assert [labels[0]] + labels[1..] == labels;
    } else {
      assert [labels[0]] == labels;
    }
  }

  lemma {:induction false} JoinConcat(a: seq<Label>, b: seq<Label>)
    requires a != [] && b != []
    ensures Join(a + b) == Join(a) + [DOT] + Join(b)
  {
    assert (a + b)[1..] == a[1..] + b;
    if |a| > 1 {
      JoinConcat(a[1..], b);
      assert a[0] + [DOT] + (Join(a[1..]) + [DOT] + Join(b)) == a[0] + [DOT] + Join(a[1..]) + [DOT] + Join(b);
    }
  }

  /** A list of k non-empty labels needs at least 2k - 1 characters of text. */
  lemma {:induction false} JoinLength(labels: seq<Label>)
    requires AllNonEmpty(labels)
    ensures |Join(labels)| >= 2 * |labels| - 1
  {
    if |labels| > 1 {
      JoinLength(labels[1..]);
    }
  }

  /** "Same name or dot-suffix" on texts is "list suffix" on their fields. */
  lemma SuffixOfText(q: seq<byte>, d: seq<byte>)
    ensures EndsWith(Fields(q), Fields(d)) <==> q == d || EndsWith(q, [DOT] + d)
  {
    if EndsWith(Fields(q), Fields(d)) && q != d {
      TextOfSuffix(q, d);
    }
    if EndsWith(q, [DOT] + d) {
      var head := q[..|q| - |d| - 1];
      assert q == head + [DOT] + d;
      FieldsConcat(head, d);
    }
  }

  lemma TextOfSuffix(q: seq<byte>, d: seq<byte>)
    requires EndsWith(Fields(q), Fields(d)) && q != d
    ensures EndsWith(q, [DOT] + d)
  {
    JoinFields(q);
    JoinFields(d);
    JoinSuffix(Fields(q), Fields(d));
  }

  lemma {:induction false} JoinSuffix(a: seq<Label>, b: seq<Label>)
    requires EndsWith(a, b) && b != [] && a != b
    ensures EndsWith(Join(a), [DOT] + Join(b))
  {
    assert a[1..][|a| - 1 - |b|..] == b;
    if |a| > |b| + 1 {
      JoinSuffix(a[1..], b);
      var head := Join(a[1..])[..|Join(a[1..])| - |Join(b)| - 1];
      assert Join(a) == a[0] + [DOT] + head + ([DOT] + Join(b));
    } else {
      assert a[1..] == b;
      assert Join(a) == a[0] + ([DOT] + Join(b));
    }
  }
}
