/** Clean-up of a written domain name: white space out, lower case, no trailing dots. */
module Normalizer {
  import opened Bytes
  import opened Names

  // isspace() and tolower() of the C locale.
  predicate IsSpace(b: byte) { b == 32 || 9 <= b <= 13 }

  function ToLower(b: byte): byte { if 65 <= b <= 90 then b + 32 else b }

  predicate IsLowered(s: seq<byte>) {
    forall i :: 0 <= i < |s| ==> ToLower(s[i]) == s[i]
  }

  predicate HasNoSpace(s: seq<byte>) {
    forall i :: 0 <= i < |s| ==> !IsSpace(s[i])
  }

  function Lower(s: seq<byte>): (r: seq<byte>)
    ensures |r| == |s| && forall i :: 0 <= i < |s| ==> r[i] == ToLower(s[i])
  {
    seq(|s|, i requires 0 <= i < |s| => ToLower(s[i]))
  }

  /** The text without white space, in lower case. */
  function Clean(s: seq<byte>): seq<byte> {
    if s == [] then [] else (if IsSpace(s[0]) then [] else [ToLower(s[0])]) + Clean(s[1..])
  }

  function StripDots(s: seq<byte>): seq<byte> {
    if s != [] && s[|s| - 1] == DOT then StripDots(s[..|s| - 1]) else s
  }

  function Dots(k: nat): (dots: seq<byte>)
    ensures |dots| == k && forall i :: 0 <= i < k ==> dots[i] == DOT
  {
    seq(k, _ => DOT)
  }

  predicate DotsApart(s: seq<byte>) {
    forall j :: 0 < j < |s| ==> !(s[j - 1] == DOT && s[j] == DOT)
  }

  /**
   * Whether the copying loop gets through the whole text with a buffer of `len` bytes. It stops as
   * soon as the buffer is full, so a text that fills it exactly must not go on with white space.
   */
  predicate Fits(domain: seq<byte>, len: nat) {
    && |Clean(domain)| < len
    && (|Clean(domain)| == len - 1 && domain != [] ==> !IsSpace(domain[|domain| - 1]))
  }

  /** What the clean-up yields with a buffer of `len` bytes, None when it refuses. */
  function Normalized(domain: CString, len: nat): Option<CString> {
    var text := StripDots(Clean(domain));
    if Fits(domain, len) && text != [] && text[0] != DOT && DotsApart(text) then
      CleanHasNoNul(domain);
      StripDotsIsPrefix(Clean(domain));
      Some(text)
    else
      None
  }

  // ----- the pieces

  lemma {:induction false} CleanConcat(a: seq<byte>, b: seq<byte>)
    ensures Clean(a + b) == Clean(a) + Clean(b)
  {
    if a == [] {
      assert a + b == b;
    } else {
      assert (a + b)[1..] == a[1..] + b;
      CleanConcat(a[1..], b);
    }
  }

  lemma {:induction false} CleanIsClean(s: seq<byte>)
    ensures IsLowered(Clean(s)) && HasNoSpace(Clean(s))
  {
    if s != [] {
      CleanIsClean(s[1..]);
    }
  }

  lemma {:induction false} CleanIsEmpty(s: seq<byte>)
    ensures Clean(s) == [] <==> forall i :: 0 <= i < |s| ==> IsSpace(s[i])
  {
    if s != [] {
      CleanIsEmpty(s[1..]);
      assert forall i :: 1 <= i < |s| ==> s[i] == s[1..][i - 1];
    }
  }

  lemma {:induction false} CleanIsLower(s: seq<byte>)
    requires HasNoSpace(s)
    ensures Clean(s) == Lower(s)
  {
    if s != [] {
      assert forall i :: 0 <= i < |s| - 1 ==> s[1..][i] == s[i + 1];
      CleanIsLower(s[1..]);
    }
  }

  lemma {:induction false} CleanHasNoNul(s: seq<byte>)
    requires 0 !in s
    ensures 0 !in Clean(s)
  {
    if s != [] {
      CleanHasNoNul(s[1..]);
    }
  }

  lemma {:induction false} StripDotsIsPrefix(s: seq<byte>)
    ensures StripDots(s) <= s
    ensures s == StripDots(s) + Dots(|s| - |StripDots(s)|)
    ensures StripDots(s) != [] ==> StripDots(s)[|StripDots(s)| - 1] != DOT
  {
    if s != [] && s[|s| - 1] == DOT {
      StripDotsIsPrefix(s[..|s| - 1]);
    }
  }

  lemma {:induction false} StripDotsOfDotted(t: seq<byte>, k: nat)
    requires t == [] || t[|t| - 1] != DOT
    ensures StripDots(t + Dots(k)) == t
  {
    if k > 0 {
      assert (t + Dots(k))[..|t| + k - 1] == t + Dots(k - 1);
      StripDotsOfDotted(t, k - 1);
    } else {
      assert t + Dots(0) == t;
    }
  }

  lemma {:induction false} LaterFieldsNonEmpty(s: seq<byte>)
    ensures AllNonEmpty(Fields(s)[1..]) <==> (s == [] || s[|s| - 1] != DOT) && DotsApart(s)
  {
    if s != [] {
      var rest := s[1..];
      var fields := Fields(rest);
      LaterFieldsNonEmpty(rest);
      assert s == [s[0]] + rest;
      assert DotsApart(s) <==> DotsApart(rest) && !(rest != [] && s[0] == DOT && rest[0] == DOT) by {
        forall j | 0 < j < |rest| && rest[j - 1] == DOT && rest[j] == DOT
          ensures !DotsApart(s)
        {
          assert s[j + 1 - 1] == DOT && s[j + 1] == DOT;
        }
      }
      if s[0] == DOT {
        assert Fields(s)[1..] == fields;
        assert fields == [fields[0]] + fields[1..];
        assert AllNonEmpty(fields) <==> fields[0] != [] && AllNonEmpty(fields[1..]);
      } else {
        assert Fields(s)[1..] == fields[1..];
      }
    }
  }

  /** The dot checks of the clean-up hold exactly when no field of the text is empty. */
  lemma NoEmptyField(s: seq<byte>)
    ensures AllNonEmpty(Fields(s)) <==> s != [] && s[0] != DOT && s[|s| - 1] != DOT && DotsApart(s)
  {
    LaterFieldsNonEmpty(s);
    var fields := Fields(s);
    assert fields == [fields[0]] + fields[1..];
    assert AllNonEmpty(fields) <==> fields[0] != [] && AllNonEmpty(fields[1..]);
  }

  // ----- what the clean-up promises

  /** Accepted exactly when the cleaned text is a name without empty labels followed by dots only. */
  lemma NormalizedIff(domain: CString, len: nat, text: CString)
    ensures Normalized(domain, len) == Some(text) <==>
            && Fits(domain, len)
            && AllNonEmpty(Fields(text))
            && exists k: nat :: Clean(domain) == text + Dots(k)
  {
    var clean := Clean(domain);
    StripDotsIsPrefix(clean);
    NoEmptyField(text);
    if exists k: nat :: clean == text + Dots(k) {
      var k: nat :| clean == text + Dots(k);
      if AllNonEmpty(Fields(text)) {
        StripDotsOfDotted(text, k);
      }
    }
  }

  /** An accepted name is lower-case, has no white space and no empty label, and fits the buffer. */
  lemma NormalizedOutput(domain: CString, len: nat)
    requires Normalized(domain, len).Some?
    ensures var text := Normalized(domain, len).value;
      && IsLowered(text) && HasNoSpace(text)
      && AllNonEmpty(Fields(text)) && AllDotFree(Fields(text))
      && |text| < len
  {
    var text := Normalized(domain, len).value;
    CleanIsClean(domain);
    StripDotsIsPrefix(Clean(domain));
    NoEmptyField(text);
    FieldsDotFree(text);
  }

  /** Cleaning up what was cleaned up changes nothing, with the same buffer. */
  lemma NormalizedIdempotent(domain: CString, len: nat)
    requires Normalized(domain, len).Some?
    ensures Normalized(Normalized(domain, len).value, len) == Normalized(domain, len)
  {
    var text := Normalized(domain, len).value;
    NormalizedOutput(domain, len);
    CleanIsLower(text);
    assert Lower(text) == text;
    assert text == text + Dots(0);
    NormalizedIff(text, len, text);
  }

  // ----- the loops

  method NormalizeDomain(domain: CString, normalized: array<byte>) returns (rc: int)
    modifies normalized
    ensures rc == 0 || rc == -1
    ensures rc == 0 <==> Normalized(domain, normalized.Length).Some?
    ensures rc == 0 ==> CStr(normalized[..]) == Normalized(domain, normalized.Length).value
  {
    if normalized.Length == 0 {
      return -1;
    }
    var p := 0;
    while p < |domain| && IsSpace(domain[p])
      invariant p <= |domain|
      invariant forall j :: 0 <= j < p ==> IsSpace(domain[j])
    {
      p := p + 1;
    }
    CleanIsEmpty(domain);
    if p == |domain| {
      return -1;
    }
    CleanIsEmpty(domain[..p]);
    var i;
    p, i := CopyClean(domain, p, normalized);
    StoppedEarly(domain, p, i, normalized.Length);
    if p < |domain| && i >= normalized.Length - 1 {
      return -1;
    }
    assert domain[..p] == domain;
    CleanHasNoNul(domain);
    rc := TrimAndCheck(normalized, i);
  }

  /** The rest of the clean-up, on the `end` bytes copied so far. */
  method TrimAndCheck(normalized: array<byte>, end: nat) returns (rc: int)
    requires end < normalized.Length && 0 !in normalized[..end]
    modifies normalized
    ensures var text := StripDots(old(normalized[..end]));
      && rc == (if text != [] && text[0] != DOT && DotsApart(text) then 0 else -1)
      && (rc == 0 ==> CStr(normalized[..]) == text)
  {
    StripDotsIsPrefix(normalized[..end]);
    var i := DropTrailingDots(normalized, end);
    if i == 0 {
      return -1;
    }
    ghost var text := normalized[..i];
    normalized[i] := 0;
    assert normalized[..i] == text;
    var bad := HasMisplacedDot(normalized, i);
    if bad {
      return -1;
    }
    assert normalized[..] == text + [0] + normalized[i + 1..];
    CStrStopsAtNul(text, normalized[i + 1..]);
    rc := 0;
  }

  /** The copying loop: from position `start` on, until the text ends or the buffer is full. */
  method CopyClean(domain: CString, start: nat, normalized: array<byte>) returns (p: nat, i: nat)
    requires start < |domain| && Clean(domain[..start]) == []
    requires normalized.Length > 0
    modifies normalized
    ensures p <= |domain| && i <= normalized.Length - 1
    ensures normalized[..i] == Clean(domain[..p])
    ensures p == |domain| || i == normalized.Length - 1
    ensures i == normalized.Length - 1 && i > 0 ==> p > 0 && !IsSpace(domain[p - 1])
  {
    var len := normalized.Length;
    p, i := start, 0;
    while p < |domain| && i < len - 1
      invariant p <= |domain| && i <= len - 1
      invariant normalized[..i] == Clean(domain[..p])
      invariant i == len - 1 && i > 0 ==> p > 0 && !IsSpace(domain[p - 1])
    {
      CleanConcat(domain[..p], [domain[p]]);
      assert domain[..p + 1] == domain[..p] + [domain[p]];
      if !IsSpace(domain[p]) {
        normalized[i] := ToLower(domain[p]);
        i := i + 1;
      }
      p := p + 1;
    }
  }

  method DropTrailingDots(normalized: array<byte>, end: nat) returns (i: nat)
    requires end <= normalized.Length
    ensures i <= end && normalized[..i] == StripDots(normalized[..end])
  {
    i := end;
    while i > 0 && normalized[i - 1] == DOT
      invariant i <= end
      invariant StripDots(normalized[..i]) == StripDots(normalized[..end])
    {
      assert normalized[..i][..i - 1] == normalized[..i - 1];
      i := i - 1;
    }
  }

  /** A dot at the start, or right after another one. */
  method HasMisplacedDot(normalized: array<byte>, end: nat) returns (bad: bool)
    requires 0 < end <= normalized.Length
    ensures bad <==> normalized[0] == DOT || !DotsApart(normalized[..end])
  {
    ghost var text := normalized[..end];
    var j := 0;
    while j < end
      invariant j <= end
      invariant j > 0 ==> text[0] != DOT
      invariant forall m :: 0 < m < end && m <= j ==> !(text[m - 1] == DOT && text[m] == DOT)
    {
      if normalized[j] == DOT && (j == 0 || (j + 1 < end && normalized[j + 1] == DOT)) {
        assert j > 0 ==> text[j + 1 - 1] == DOT && text[j + 1] == DOT;
        return true;
      }
      j := j + 1;
    }
    bad := false;
  }

  // Where the copying loop stopped tells whether the text fits.
  lemma StoppedEarly(domain: seq<byte>, p: nat, i: nat, len: nat)
    requires p <= |domain| && i == |Clean(domain[..p])| && i <= len - 1
    requires i == len - 1 && i > 0 ==> p > 0 && !IsSpace(domain[p - 1])
    requires p == |domain| || i == len - 1
    requires Clean(domain) != []
    ensures p == |domain| ==> Fits(domain, len)
    ensures p < |domain| ==> !Fits(domain, len)
  {
    assert domain == domain[..p] + domain[p..];
    CleanConcat(domain[..p], domain[p..]);
    CleanIsEmpty(domain[p..]);
    if p == |domain| {
      assert domain[..p] == domain;
    } else {
      assert domain[|domain| - 1] == domain[p..][|domain| - p - 1];
    }
  }
}
