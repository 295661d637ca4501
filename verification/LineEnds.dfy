/**
 * A carriage return inside a line. The documentation lists it among the line ends, but lines are
 * cut at line feeds only: what stands on its two sides is one line, and one name at most.
 */
module LineEnds {
  import opened Bytes
  import opened Names
  import opened Normalizer
  import opened Blocklist
  import opened Loader

  /** The name a line means, as a set of none or one. */
  ghost function NamesOf(line: CString): set<seq<Label>> {
    Listed(EntryOf(line))
  }

  predicate Blank(line: CString) {
    forall i :: 0 <= i < |line| ==> IsSpace(line[i])
  }

  predicate OnlyDots(s: seq<byte>) {
    forall i :: 0 <= i < |s| ==> s[i] == DOT
  }

  /** The cleaned text of a line can be listed, if it fits. */
  predicate ListableText(clean: seq<byte>) {
    && clean != [] && clean[0] != HASH
    && var text := StripDots(clean);
       text != [] && text[0] != DOT && DotsApart(text) && AllShort(Fields(text))
  }

  // ----- a line and its cleaned text

  lemma {:induction false} SkipKeepsClean(line: CString)
    ensures Clean(SkipSpace(line)) == Clean(line)
    ensures SkipSpace(line) == [] <==> Clean(line) == []
    ensures SkipSpace(line) != [] ==>
              && ToLower(SkipSpace(line)[0]) == Clean(line)[0]
              && line != [] && SkipSpace(line)[|SkipSpace(line)| - 1] == line[|line| - 1]
  {
    if line != [] && IsSpace(line[0]) {
      SkipKeepsClean(line[1..]);
      assert SkipSpace(line) == SkipSpace(line[1..]) && Clean(line) == Clean(line[1..]);
    } else {
      assert SkipSpace(line) == line;
    }
  }

  lemma {:induction false} StripKeepsClean(line: CString)
    ensures Clean(StripLineEnd(line)) == Clean(line)
  {
    if line != [] && (line[|line| - 1] == LF || line[|line| - 1] == CR) {
      var n := |line| - 1;
      StripKeepsClean(line[..n]);
      assert line == line[..n] + [line[n]];
      CleanConcat(line[..n], [line[n]]);
      assert Clean([line[n]]) == [];
    }
  }

  lemma {:induction false} StripConcat(x: CString, b: CString)
    ensures StripLineEnd(x + b) == if StripLineEnd(b) == [] then StripLineEnd(x) else x + StripLineEnd(b)
  {
    if b == [] {
      assert x + b == x;
    } else if b[|b| - 1] == LF || b[|b| - 1] == CR {
      assert (x + b)[..|x + b| - 1] == x + b[..|b| - 1];
      StripConcat(x, b[..|b| - 1]);
    }
  }

  /** A line is usable exactly if its cleaned text can be listed and its stripped form fits. */
  lemma UsableIff(line: CString)
    ensures Usable(line) <==> ListableText(Clean(line)) && Fits(StripLineEnd(line), NAME_BUFFER)
    ensures NamesOf(line) == if Usable(line) then {Fields(StripDots(Clean(line)))} else {}
  {
    var stripped := StripLineEnd(line);
    var text := SkipSpace(stripped);
    StripKeepsClean(line);
    SkipKeepsClean(stripped);
    if Entry(line).Some? {
      assert Fits(text, NAME_BUFFER) <==> Fits(stripped, NAME_BUFFER);
      assert EntryOf(line) == [] + [text];
      ListedSnoc([], text);
      assert Listed([]) == {};
    }
  }

  // ----- texts one after the other

  lemma {:induction false} StripDotsConcat(c: seq<byte>, d: seq<byte>)
    ensures StripDots(c + d) == if OnlyDots(d) then StripDots(c) else c + StripDots(d)
  {
    if d == [] {
      assert c + d == c;
    } else {
      var n := |d| - 1;
      assert d == d[..n] + [d[n]];
      if d[n] == DOT {
        assert (c + d)[..|c + d| - 1] == c + d[..n];
        StripDotsConcat(c, d[..n]);
        assert OnlyDots(d) <==> OnlyDots(d[..n]);
      }
    }
  }

  lemma {:induction false} FieldsOfPrefix(s: seq<byte>, t: seq<byte>)
    requires s <= t
    ensures |Fields(s)| <= |Fields(t)|
    ensures forall i :: 0 <= i < |Fields(s)| ==> |Fields(s)[i]| <= |Fields(t)[i]|
  {
    if s != [] {
      assert s[1..] <= t[1..];
      FieldsOfPrefix(s[1..], t[1..]);
    }
  }

  // What cannot be listed cannot be listed with more text behind it.
  lemma ListablePrefix(c: seq<byte>, d: seq<byte>)
    requires c != [] && ListableText(c + d)
    ensures ListableText(c)
  {
    StripDotsConcat(c, d);
    StripDotsIsPrefix(c);
    var text, whole := StripDots(c), StripDots(c + d);
    assert text <= whole;
    assert c <= whole || text == whole;
    assert c[0] == DOT || text != [];
    FieldsOfPrefix(text, whole);
    forall j | 0 < j < |text|
      ensures !(text[j - 1] == DOT && text[j] == DOT)
    {
      assert whole[j - 1] == text[j - 1] && whole[j] == text[j];
    }
  }

  // ----- the two sides of a carriage return

  lemma CleanWithoutSpace(a: seq<byte>, space: byte, b: seq<byte>)
    requires IsSpace(space)
    ensures Clean(a + [space] + b) == Clean(a + b)
  {
    assert Clean([space]) == [];
    CleanConcat(a + [space], b);
    CleanConcat(a, [space]);
    CleanConcat(a, b);
  }

  lemma CleanOfBoth(a: CString, b: CString)
    ensures Clean(a + [CR] + b) == Clean(a) + Clean(b)
  {
    CleanWithoutSpace(a, CR, b);
    CleanConcat(a, b);
  }

  lemma BlankIsClean(line: CString)
    ensures Blank(line) <==> Clean(line) == []
  {
    CleanIsEmpty(line);
  }

  // Text on the left that cannot be used spoils the line, and so does a comment.
  lemma UnusableLeft(a: CString, b: CString)
    requires !Blank(a) && Usable(a + [CR] + b)
    ensures Usable(a)
  {
    var line := a + [CR] + b;
    BlankIsClean(a);
    CleanOfBoth(a, b);
    UsableIff(a);
    UsableIff(line);
    ListablePrefix(Clean(a), Clean(b));
    FitsLeft(a, b);
  }

  lemma FitsLeft(a: CString, b: CString)
    requires !Blank(a) && Fits(StripLineEnd(a + [CR] + b), NAME_BUFFER)
    ensures Fits(StripLineEnd(a), NAME_BUFFER)
  {
    CleanOfBoth(a, b);
    StripKeepsClean(a);
    StripKeepsClean(a + [CR] + b);
    StripConcat(a + [CR], b);
    StripConcat(a, [CR]);
    BlankIsClean(b);
    if Clean(b) == [] && StripLineEnd(b) != [] {
      StrippedIsInside(b);
    }
  }

  lemma {:induction false} StrippedIsInside(line: CString)
    ensures StripLineEnd(line) <= line
  {
    if line != [] && (line[|line| - 1] == LF || line[|line| - 1] == CR) {
      StrippedIsInside(line[..|line| - 1]);
    }
  }

  lemma BlankLeft(a: CString, b: CString)
    requires Blank(a)
    ensures NamesOf(a + [CR] + b) == NamesOf(b) && !Usable(a)
  {
    BlankIsClean(a);
    CleanOfBoth(a, b);
    assert [] + Clean(b) == Clean(b);
    UsableIff(a);
    UsableIff(b);
    UsableIff(a + [CR] + b);
    if Clean(b) != [] {
      FitsRight(a, b);
    }
  }

  lemma FitsRight(a: CString, b: CString)
    requires Clean(a) == [] && Clean(b) != []
    ensures Fits(StripLineEnd(a + [CR] + b), NAME_BUFFER) <==> Fits(StripLineEnd(b), NAME_BUFFER)
  {
    CleanOfBoth(a, b);
    StripKeepsClean(b);
    StripKeepsClean(a + [CR] + b);
    StripConcat(a + [CR], b);
    SameFit(StripLineEnd(a + [CR] + b), StripLineEnd(b));
  }

  // Whether a text fits is up to its cleaned text and its last byte.
  lemma SameFit(x: CString, y: CString)
    requires x != [] && y != [] && Clean(x) == Clean(y) && x[|x| - 1] == y[|y| - 1]
    ensures Fits(x, NAME_BUFFER) <==> Fits(y, NAME_BUFFER)
  {
  }

  lemma UsableLeft(a: CString, b: CString)
    requires Usable(a)
    ensures NamesOf(a + [CR] + b) == NamesOf(a) + NamesOf(b) <==>
            OnlyDots(Clean(b)) && Fits(StripLineEnd(a + [CR] + b), NAME_BUFFER)
  {
    var line := a + [CR] + b;
    CleanOfBoth(a, b);
    UsableIff(a);
    UsableIff(b);
    UsableIff(line);
    StripDotsConcat(Clean(a), Clean(b));
    if OnlyDots(Clean(b)) {
      OnlyDotsUnusable(b);
    } else {
      LongerText(Clean(a), Clean(b));
      assert Fields(StripDots(Clean(a))) in NamesOf(a) + NamesOf(b);
      assert Fields(StripDots(Clean(a))) !in NamesOf(line);
    }
  }

  lemma OnlyDotsUnusable(b: CString)
    requires OnlyDots(Clean(b))
    ensures !Usable(b)
  {
    UsableIff(b);
    StripDotsConcat([], Clean(b));
    assert [] + Clean(b) == Clean(b);
  }

  lemma SomethingLeft(d: seq<byte>)
    requires !OnlyDots(d)
    ensures StripDots(d) != []
  {
    StripDotsIsPrefix(d);
    assert StripDots(d) == [] ==> d == Dots(|d|);
  }

  // More than dots behind a text makes another name of it.
  lemma LongerText(c: seq<byte>, d: seq<byte>)
    requires !OnlyDots(d)
    ensures Fields(StripDots(c + d)) != Fields(StripDots(c))
  {
    var text, whole := StripDots(c), StripDots(c + d);
    StripDotsConcat(c, d);
    StripDotsIsPrefix(c);
    SomethingLeft(d);
    assert |whole| > |text|;
    JoinFields(text);
    JoinFields(whole);
  }

  /**
   * When a carriage return does what the documentation says: the line means exactly the names its
   * two sides would mean as lines of their own. Nothing before it is always harmless; a comment or
   * an unusable text before it is, if nothing usable follows, as what follows is lost; a usable
   * name before it is only if nothing but dots follows, in a line that still fits.
   */
  ghost predicate SeparationHarmless(a: CString, b: CString) {
    Blank(a)
    || if Usable(a) then OnlyDots(Clean(b)) && Fits(StripLineEnd(a + [CR] + b), NAME_BUFFER) else !Usable(b)
  }

  lemma CarriageReturnIff(a: CString, b: CString)
    ensures NamesOf(a + [CR] + b) == NamesOf(a) + NamesOf(b) <==> SeparationHarmless(a, b)
  {
    UsableIff(a);
    UsableIff(b);
    UsableIff(a + [CR] + b);
    if Blank(a) {
      BlankLeft(a, b);
    } else if Usable(a) {
      UsableLeft(a, b);
    } else if Usable(a + [CR] + b) {
      UnusableLeft(a, b);
    }
  }

  /** Two usable names are never separated: the line means one other name, or none. */
  lemma TwoNamesAreJoined(a: CString, b: CString)
    requires Usable(a) && Usable(b)
    ensures NamesOf(a + [CR] + b) != NamesOf(a) + NamesOf(b)
  {
    CarriageReturnIff(a, b);
    if Blank(a) {
      BlankLeft(a, b);
    }
    if OnlyDots(Clean(b)) {
      OnlyDotsUnusable(b);
    }
  }

  /** The line "a", carriage return, "b" means the one name "ab". */
  lemma CarriageReturnInput()
    ensures NamesOf([97, CR, 98]) == {[[97, 98]]}
    ensures NamesOf([97]) == {[[97]]} && NamesOf([98]) == {[[98]]}
  {
    PlainLine([97], 98, [97, CR, 98]);
    PlainLine([], 97, [97]);
    PlainLine([], 98, [98]);
    assert [97] + [98] == [97, 98];
  }

  // A short line of lower-case letters, with at most one carriage return in it.
  lemma PlainLine(head: seq<byte>, last: byte, line: CString)
    requires head in {[], [97]} && last in {97, 98}
    requires line == (if head == [] then [] else head + [CR]) + [last]
    ensures NamesOf(line) == {[head + [last]]}
  {
    var text := head + [last];
    assert head == [] ==> text == [last];
    assert Clean([last]) == [last];
    CleanConcat(if head == [] then [] else head + [CR], [last]);
    if head != [] {
      CleanConcat(head, [CR]);
      assert Clean(head) == head && Clean([CR]) == [];
    }
    assert Clean(line) == text;
    assert StripLineEnd(line) == line;
    FieldsDotFree(text);
    UsableIff(line);
  }
}
