/**
 * Different spellings of a name, byte by byte: capitals, white space and trailing dots. Letters and
 * white space are given by their codes.
 */
module Spelling {
  import opened Bytes
  import opened Names
  import opened Normalizer
  import opened Blocklist

  predicate WhiteByte(b: byte) { b in {9, 10, 11, 12, 13, 32} }

  predicate CapitalByte(b: byte) { 65 <= b <= 90 }

  /** No capitals and no white space. */
  predicate Tidy(s: seq<byte>) {
    forall i :: 0 <= i < |s| ==> !WhiteByte(s[i]) && !CapitalByte(s[i])
  }

  /** Equal, or the same letter once as a capital. */
  predicate SameLetter(b: byte, c: byte) {
    b == c || (CapitalByte(b) && c == b + 32) || (CapitalByte(c) && b == c + 32)
  }

  predicate SameButCase(x: seq<byte>, y: seq<byte>) {
    |x| == |y| && forall i :: 0 <= i < |x| ==> SameLetter(x[i], y[i])
  }

  /** What cleaning makes of each byte: nothing of white space, the small letter of a capital. */
  lemma CleanByByte(s: seq<byte>, b: byte)
    ensures Clean([]) == []
    ensures Clean(s + [b]) == Clean(s) + if WhiteByte(b) then [] else if CapitalByte(b) then [b + 32] else [b]
  {
    CleanConcat(s, [b]);
    assert [b][1..] == [];
  }

  lemma {:induction false} CleanIsTidy(s: seq<byte>)
    ensures Tidy(Clean(s)) && |Clean(s)| <= |s|
  {
    if s != [] {
      var n := |s| - 1;
      CleanIsTidy(s[..n]);
      CleanByByte(s[..n], s[n]);
      assert s == s[..n] + [s[n]];
    }
  }

  lemma {:induction false} TidyIsClean(s: seq<byte>)
    requires Tidy(s)
    ensures Clean(s) == s
  {
    if s != [] {
      var n := |s| - 1;
      TidyIsClean(s[..n]);
      CleanByByte(s[..n], s[n]);
      assert s == s[..n] + [s[n]];
    }
  }

  lemma {:induction false} CaseIsCleaned(x: seq<byte>, y: seq<byte>)
    requires SameButCase(x, y)
    ensures Clean(x) == Clean(y)
  {
    if x != [] {
      var n := |x| - 1;
      CaseIsCleaned(x[..n], y[..n]);
      CleanByByte(x[..n], x[n]);
      CleanByByte(y[..n], y[n]);
      assert x == x[..n] + [x[n]] && y == y[..n] + [y[n]];
    }
  }

  /** An accepted text has no capitals, no white space and no empty field, and fits its buffer. */
  lemma AcceptedIsTidy(domain: CString, len: nat)
    requires Normalized(domain, len).Some?
    ensures Tidy(Normalized(domain, len).value) && |Normalized(domain, len).value| < len
    ensures AllNonEmpty(Fields(Normalized(domain, len).value))
  {
    CleanIsTidy(domain);
    StripDotsIsPrefix(Clean(domain));
    NormalizedOutput(domain, len);
  }

  /** A tidy text without empty fields is accepted as it is, and any dots behind it are dropped. */
  lemma TidyIsKept(text: CString, k: nat, len: nat)
    requires Tidy(text) && AllNonEmpty(Fields(text)) && |text| + k < len
    ensures 0 !in text + Dots(k) && Normalized(text + Dots(k), len) == Some(text)
  {
    var domain := text + Dots(k);
    TidyIsClean(domain);
    NormalizedIff(domain, len, text);
  }

  /** Names that differ in case only stand for the same labels, listed or asked for. */
  lemma CaseIsIgnored(x: CString, y: CString)
    requires SameButCase(x, y)
    ensures LabelList(x) == LabelList(y) && Listed([x]) == Listed([y])
    ensures forall blocked :: Verdict(blocked, x) <==> Verdict(blocked, y)
  {
    CaseIsCleaned(x, y);
    if x != [] {
      assert SameLetter(x[|x| - 1], y[|y| - 1]);
    }
    assert LabelList(x) == LabelList(y);
    ListedSnoc([], x);
    ListedSnoc([], y);
    assert [] + [x] == [x] && [] + [y] == [y];
  }

  /** White space anywhere in a name changes nothing, unless the name fills the buffer. */
  lemma SpaceIsIgnored(a: CString, white: byte, b: CString)
    requires WhiteByte(white) && |a| + |b| < 255
    ensures LabelList(a + [white] + b) == LabelList(a + b)
  {
    CleanByByte(a, white);
    CleanConcat(a + [white], b);
    CleanConcat(a, b);
    assert Clean(a + [white] + b) == Clean(a + b);
    CleanIsTidy(a + b);
    assert Fits(a + b, NAME_BUFFER) && Fits(a + [white] + b, NAME_BUFFER);
  }

  /** A tidy name of labels of 1 to 63 bytes stands for these, also with dots behind it; a longer label is refused. */
  lemma TidyLabels(text: CString, k: nat)
    requires Tidy(text) && AllNonEmpty(Fields(text)) && |text| + k <= 255
    ensures 0 !in text + Dots(k)
    ensures LabelList(text + Dots(k)) ==
            if forall i :: 0 <= i < |Fields(text)| ==> |Fields(text)[i]| <= 63 then Some(Fields(text)) else None
  {
    TidyIsKept(text, k, NAME_BUFFER);
  }
}
