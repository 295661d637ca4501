/** Reading a list of written names, line by line, into a trie. */
module Loader {
  import opened Bytes
  import opened Names
  import opened Normalizer
  import opened Blocklist
  import opened Trie
  import opened Statistics

  const LF: byte := 10
  const CR: byte := 13
  const HASH: byte := 35

  function StripLineEnd(line: CString): CString {
    if line != [] && (line[|line| - 1] == LF || line[|line| - 1] == CR) then StripLineEnd(line[..|line| - 1]) else line
  }

  function SkipSpace(line: CString): CString {
    if line != [] && IsSpace(line[0]) then SkipSpace(line[1..]) else line
  }

  /** What a line offers for insertion: nothing if it is blank or a comment. */
  function Entry(line: CString): Option<CString> {
    var text := SkipSpace(StripLineEnd(line));
    if text == [] || text[0] == HASH then None else Some(text)
  }

  function Entries(lines: seq<CString>): seq<CString> {
    if lines == [] then []
    else Entries(lines[..|lines| - 1]) + EntryOf(lines[|lines| - 1])
  }

  function EntryOf(line: CString): seq<CString> {
    match Entry(line) case None => [] case Some(text) => [text]
  }

  predicate OnlyLineEnds(s: seq<byte>) {
    forall i :: 0 <= i < |s| ==> s[i] == 10 || s[i] == 13
  }

  /** No white space in front, and no line feed or carriage return behind. */
  predicate Trimmed(text: seq<byte>) {
    text != [] ==> !(text[0] in {9, 10, 11, 12, 13, 32}) && !(text[|text| - 1] in {10, 13})
  }

  /**
   * Every line is white space, a trimmed text and line ends. It offers the text, unless there is
   * none or it starts with "#".
   */
  lemma EntryMeaning(line: CString) returns (blank: seq<byte>, text: seq<byte>, ends: seq<byte>)
    ensures line == blank + text + ends && Trimmed(text) && OnlyLineEnds(ends)
    ensures forall i :: 0 <= i < |blank| ==> blank[i] in {9, 10, 11, 12, 13, 32}
    ensures Entry(line) == if text == [] || text[0] == 35 then None else Some(text)
  {
    ends := CutEnds(line);
    var rest := StripLineEnd(line);
    blank := CutSpace(rest);
    text := SkipSpace(rest);
    assert text != [] ==> text[|text| - 1] == rest[|rest| - 1];
  }

  lemma {:induction false} CutEnds(line: CString) returns (ends: seq<byte>)
    ensures line == StripLineEnd(line) + ends && OnlyLineEnds(ends)
    ensures StripLineEnd(line) != [] ==> !(StripLineEnd(line)[|StripLineEnd(line)| - 1] in {10, 13})
  {
    ends := [];
    if line != [] && (line[|line| - 1] == LF || line[|line| - 1] == CR) {
      ends := CutEnds(line[..|line| - 1]);
      ends := ends + [line[|line| - 1]];
    }
  }

  lemma {:induction false} CutSpace(line: CString) returns (blank: seq<byte>)
    ensures line == blank + SkipSpace(line)
    ensures forall i :: 0 <= i < |blank| ==> blank[i] in {9, 10, 11, 12, 13, 32}
    ensures SkipSpace(line) != [] ==> !(SkipSpace(line)[0] in {9, 10, 11, 12, 13, 32})
  {
    blank := [];
    if line != [] && IsSpace(line[0]) {
      blank := CutSpace(line[1..]);
      blank := [line[0]] + blank;
    }
  }

  /** A line that names something: neither blank nor a comment nor refused. */
  predicate Usable(line: CString) {
    Entry(line).Some? && LabelList(Entry(line).value).Some?
  }

  /** The entries of the lines marked as taken. */
  function TakenEntries(lines: seq<CString>, taken: seq<bool>): seq<CString>
    requires |lines| == |taken|
  {
    if lines == [] then []
    else
      var n := |lines| - 1;
      TakenEntries(lines[..n], taken[..n]) + if taken[n] then EntryOf(lines[n]) else []
  }

  ghost predicate AllTaken(lines: seq<CString>, taken: seq<bool>)
    requires |lines| == |taken|
  {
    forall i :: 0 <= i < |lines| && Usable(lines[i]) ==> taken[i]
  }

  /** Only usable lines are taken, and all those for which memory suffices. */
  ghost predicate TakenFairly(lines: seq<CString>, taken: seq<bool>, memory: nat -> Allocator) {
    && |taken| == |lines|
    && forall i :: 0 <= i < |lines| ==>
         && (taken[i] ==> Usable(lines[i]))
         && (Usable(lines[i]) && Plenty(memory(i)) ==> taken[i])
  }

  /** Besides the root, all suffixes of blocked names have nodes, and no others but suffixes of any name. */
  ghost predicate NodesBetween(known: set<seq<Label>>, domains: set<seq<Label>>, all: set<seq<Label>>) {
    forall p :: (p == [] || OnPath(domains, p) ==> p in known) && (p in known ==> p == [] || OnPath(all, p))
  }

  /**
   * The state of a trie after a load: its blocked names are those of the lines taken, and no others;
   * failed insertions leave no nodes but those of names in the list.
   */
  ghost predicate Loaded(known: set<seq<Label>>, domains: set<seq<Label>>, lines: seq<CString>, taken: seq<bool>) {
    && |taken| == |lines|
    && domains == Listed(TakenEntries(lines, taken))
    && NodesBetween(known, domains, Listed(Entries(lines)))
    && (AllTaken(lines, taken) ==> Tight(known, domains))
  }

  /**
   * The loop of load_filter_file() over the lines as they were read. `taken` marks the lines whose
   * insertion succeeded: usable ones only, and every usable one for which memory suffices.
   */
  method LoadLines(lines: seq<CString>, memory: nat -> Allocator) returns (trie: Filter, ghost taken: seq<bool>)
    ensures fresh(trie) && fresh(trie.Repr) && trie.Valid()
    ensures Loaded(trie.Known(), trie.domains, lines, taken)
    ensures TakenFairly(lines, taken, memory)
  {
    trie := new Filter();
    taken := [];
    LoadedNothing();
    var i := 0;
    assert lines[..i] == [];
    while i < |lines|
      invariant 0 <= i <= |lines|
      invariant fresh(trie.Repr) && trie.Valid()
      invariant Loaded(trie.Known(), trie.domains, lines[..i], taken)
      invariant TakenFairly(lines[..i], taken, memory)
    {
      taken := LoadLine(trie, lines, i, memory, taken);
      i := i + 1;
    }
    assert lines[..i] == lines;
  }

  /** One line: skipped, inserted, or refused without a trace in the list. */
  method LoadLine(trie: Filter, lines: seq<CString>, i: nat, memory: nat -> Allocator, ghost taken: seq<bool>)
    returns (ghost taken': seq<bool>)
    requires i < |lines| && trie.Valid()
    requires Loaded(trie.Known(), trie.domains, lines[..i], taken) && TakenFairly(lines[..i], taken, memory)
    modifies trie.Repr
    ensures trie.Valid() && fresh(trie.Repr - old(trie.Repr))
    ensures Loaded(trie.Known(), trie.domains, lines[..i + 1], taken') && TakenFairly(lines[..i + 1], taken', memory)
  {
    var line := lines[i];
    ghost var known, domains := trie.Known(), trie.domains;
    var ok := InsertLine(trie, line, memory(i));
    taken' := taken + [ok];
    LineTaken(lines, i, taken, ok, memory, known, domains, trie.Known(), trie.domains);
  }

  // What a line does to the trie keeps the account of the load.
  lemma LineTaken(lines: seq<CString>, i: nat, taken: seq<bool>, ok: bool, memory: nat -> Allocator,
                  known: set<seq<Label>>, domains: set<seq<Label>>, known': set<seq<Label>>, domains': set<seq<Label>>)
    requires i < |lines| && Loaded(known, domains, lines[..i], taken) && TakenFairly(lines[..i], taken, memory)
    requires (ok ==> Usable(lines[i])) && (Usable(lines[i]) && Plenty(memory(i)) ==> ok)
    requires Inserted(lines[i], ok, known, domains, known', domains')
    ensures Loaded(known', domains', lines[..i + 1], taken + [ok])
    ensures TakenFairly(lines[..i + 1], taken + [ok], memory)
  {
    assert lines[..i + 1] == lines[..i] + [lines[i]];
    LoadedOneMore(known, domains, lines[..i], taken, lines[i], ok, known', domains');
    FairOneMore(lines[..i], taken, lines[i], ok, memory);
  }

  /** Inserts what a line offers, and tells whether that succeeded. */
  method InsertLine(trie: Filter, line: CString, alloc: Allocator) returns (ok: bool)
    requires trie.Valid()
    modifies trie.Repr
    ensures trie.Valid() && fresh(trie.Repr - old(trie.Repr))
    ensures (ok ==> Usable(line)) && (Usable(line) && Plenty(alloc) ==> ok)
    ensures Inserted(line, ok, old(trie.Known()), old(trie.domains), trie.Known(), trie.domains)
  {
    var entry := Entry(line);
    ok := false;
    if entry.Some? {
      var rc := trie.AddDomain(entry.value, alloc);
      ok := rc == 0;
    }
  }

  /** What a line does to a trie: a failed insertion may leave nodes, but lists nothing. */
  ghost predicate Inserted(line: CString, ok: bool, known: set<seq<Label>>, domains: set<seq<Label>>,
                           known': set<seq<Label>>, domains': set<seq<Label>>) {
    if Usable(line) then
      var name := LabelList(Entry(line).value).value;
      && OnlyAdds(known, known', name)
      && (ok ==> known' == known + Suffixes(name))
      && domains' == if ok then domains + {name} else domains
    else
      !ok && known' == known && domains' == domains
  }

  lemma LoadedNothing()
    ensures Loaded({[]}, {}, [], [])
  {
  }

  lemma LoadedOneMore(known: set<seq<Label>>, domains: set<seq<Label>>, lines: seq<CString>, taken: seq<bool>,
                      line: CString, ok: bool, known': set<seq<Label>>, domains': set<seq<Label>>)
    requires Loaded(known, domains, lines, taken)
    requires Inserted(line, ok, known, domains, known', domains')
    ensures Loaded(known', domains', lines + [line], taken + [ok])
  {
    var all, marks := lines + [line], taken + [ok];
    assert all[..|lines|] == lines && marks[..|lines|] == taken;
    if ok {
      ListedSnoc(TakenEntries(lines, taken), Entry(line).value);
    } else {
      assert TakenEntries(all, marks) == TakenEntries(lines, taken);
    }
    if AllTaken(all, marks) {
      assert all[|lines|] == line && marks[|lines|] == ok;
      assert forall i :: 0 <= i < |lines| ==> all[i] == lines[i] && marks[i] == taken[i];
      if ok {
        InsertionKeepsTight(known, domains, LabelList(Entry(line).value).value);
      }
    }
    ListedOneMore(lines, line);
    if Usable(line) {
      var name := LabelList(Entry(line).value).value;
      NodesOfNew(known, domains, Listed(Entries(lines)), name, known', domains', ok);
    }
  }

  // The names of all lines so far, with one more line.
  lemma ListedOneMore(lines: seq<CString>, line: CString)
    ensures Listed(Entries(lines + [line])) ==
            Listed(Entries(lines)) + if Usable(line) then {LabelList(Entry(line).value).value} else {}
  {
    assert (lines + [line])[..|lines|] == lines;
    if Entry(line).Some? {
      ListedSnoc(Entries(lines), Entry(line).value);
    }
  }

  lemma NodesOfNew(known: set<seq<Label>>, domains: set<seq<Label>>, all: set<seq<Label>>, name: seq<Label>,
                   known': set<seq<Label>>, domains': set<seq<Label>>, ok: bool)
    requires NodesBetween(known, domains, all) && OnlyAdds(known, known', name)
    requires domains' == if ok then domains + {name} else domains
    requires ok ==> known' == known + Suffixes(name)
    ensures NodesBetween(known', domains', all + {name})
  {
    forall p
      ensures p == [] || OnPath(domains', p) ==> p in known'
      ensures p in known' ==> p == [] || OnPath(all + {name}, p)
    {
      SuffixesAre(name, p);
      assert OnPath(domains', p) ==> OnPath(domains, p) || (ok && EndsWith(name, p));
      assert EndsWith(name, p) || OnPath(all, p) ==> OnPath(all + {name}, p);
    }
  }

  lemma FairOneMore(lines: seq<CString>, taken: seq<bool>, line: CString, ok: bool, memory: nat -> Allocator)
    requires TakenFairly(lines, taken, memory)
    requires (ok ==> Usable(line)) && (Usable(line) && Plenty(memory(|lines|)) ==> ok)
    ensures TakenFairly(lines + [line], taken + [ok], memory)
  {
  }

  // ----- which names a load lists

  ghost predicate Means(line: CString, l: seq<Label>) {
    Usable(line) && LabelList(Entry(line).value).value == l
  }

  /** One of the lines taken means this name. */
  ghost predicate TakenAs(lines: seq<CString>, taken: seq<bool>, l: seq<Label>)
    requires |lines| == |taken|
  {
    exists i :: 0 <= i < |lines| && taken[i] && Means(lines[i], l)
  }

  lemma {:induction false} ListedByLine(lines: seq<CString>, taken: seq<bool>, l: seq<Label>)
    requires |lines| == |taken|
    ensures l in Listed(TakenEntries(lines, taken)) <==> TakenAs(lines, taken, l)
  {
    if lines != [] {
      var n := |lines| - 1;
      ListedByLine(lines[..n], taken[..n], l);
      ListedWithLast(TakenEntries(lines[..n], taken[..n]), lines[n], taken[n], l);
      TakenWithLast(lines, taken, n, l);
    }
  }

  lemma ListedWithLast(names: seq<CString>, line: CString, ok: bool, l: seq<Label>)
    ensures l in Listed(names + if ok then EntryOf(line) else []) <==> l in Listed(names) || (ok && Means(line, l))
  {
    if ok && Entry(line).Some? {
      ListedSnoc(names, Entry(line).value);
    } else {
      assert names + [] == names;
    }
  }

  lemma TakenWithLast(lines: seq<CString>, taken: seq<bool>, n: nat, l: seq<Label>)
    requires |lines| == |taken| == n + 1
    ensures TakenAs(lines, taken, l) <==> TakenAs(lines[..n], taken[..n], l) || (taken[n] && Means(lines[n], l))
  {
    if TakenAs(lines[..n], taken[..n], l) {
      var i :| 0 <= i < n && taken[..n][i] && Means(lines[..n][i], l);
      assert taken[i] && Means(lines[i], l);
    }
    if TakenAs(lines, taken, l) {
      var i :| 0 <= i < n + 1 && taken[i] && Means(lines[i], l);
      assert i < n ==> taken[..n][i] && Means(lines[..n][i], l);
    }
  }

  /** Without a failed insertion of a usable line, the names are those of all the entries. */
  lemma AllTakenIsAll(lines: seq<CString>, taken: seq<bool>)
    requires |lines| == |taken| && AllTaken(lines, taken)
    ensures Listed(TakenEntries(lines, taken)) == Listed(Entries(lines))
  {
    var all := seq(|lines|, _ => true);
    TakenOfAll(lines, all);
    forall l
      ensures l in Listed(TakenEntries(lines, taken)) <==> l in Listed(Entries(lines))
    {
      ListedByLine(lines, taken, l);
      ListedByLine(lines, all, l);
    }
  }

  lemma {:induction false} TakenOfAll(lines: seq<CString>, taken: seq<bool>)
    requires |lines| == |taken| && forall i :: 0 <= i < |taken| ==> taken[i]
    ensures TakenEntries(lines, taken) == Entries(lines)
  {
    if lines != [] {
      TakenOfAll(lines[..|lines| - 1], taken[..|lines| - 1]);
    }
  }

  /** Each line taken in one load is a line taken in another, wherever it stands there. */
  ghost predicate TakenThereToo(lines: seq<CString>, taken: seq<bool>, lines': seq<CString>, taken': seq<bool>)
    requires |lines| == |taken| && |lines'| == |taken'|
  {
    forall i :: 0 <= i < |lines| && taken[i] ==> TakenAt(lines[i], lines', taken')
  }

  ghost predicate TakenAt(line: CString, lines: seq<CString>, taken: seq<bool>)
    requires |lines| == |taken|
  {
    exists j :: 0 <= j < |lines| && lines[j] == line && taken[j]
  }

  /**
   * Order independence and monotonicity of loaded tries: a trie loaded with more lines blocks all
   * that the other does; tries loaded with the same lines, in any order and with any repeats, agree
   * on every query.
   */
  lemma LoadsCompare(first: Filter, second: Filter, lines: seq<CString>, taken: seq<bool>,
                     lines': seq<CString>, taken': seq<bool>, query: CString)
    requires Loaded(first.Known(), first.domains, lines, taken)
    requires Loaded(second.Known(), second.domains, lines', taken')
    requires TakenThereToo(lines, taken, lines', taken')
    ensures first.domains <= second.domains
    ensures Verdict(first.domains, query) ==> Verdict(second.domains, query)
    ensures TakenThereToo(lines', taken', lines, taken) ==>
              first.domains == second.domains && (Verdict(first.domains, query) <==> Verdict(second.domains, query))
  {
    LoadsInclude(lines, taken, lines', taken');
    if TakenThereToo(lines', taken', lines, taken) {
      LoadsInclude(lines', taken', lines, taken);
    }
  }

  lemma LoadsInclude(lines: seq<CString>, taken: seq<bool>, lines': seq<CString>, taken': seq<bool>)
    requires |lines| == |taken| && |lines'| == |taken'| && TakenThereToo(lines, taken, lines', taken')
    ensures Listed(TakenEntries(lines, taken)) <= Listed(TakenEntries(lines', taken'))
  {
    forall l | l in Listed(TakenEntries(lines, taken))
      ensures l in Listed(TakenEntries(lines', taken'))
    {
      ListedByLine(lines, taken, l);
      ListedByLine(lines', taken', l);
      var i :| 0 <= i < |lines| && taken[i] && Means(lines[i], l);
      assert TakenAt(lines[i], lines', taken');
    }
  }

  /** Two loads of the same lines in different orders, none failing, block the same names. */
  lemma PermutedLoads(first: Filter, second: Filter, lines: seq<CString>, taken: seq<bool>,
                      lines': seq<CString>, taken': seq<bool>, query: CString)
    requires Loaded(first.Known(), first.domains, lines, taken) && AllTaken(lines, taken)
    requires Loaded(second.Known(), second.domains, lines', taken') && AllTaken(lines', taken')
    requires multiset(lines) == multiset(lines')
    ensures Verdict(first.domains, query) <==> Verdict(second.domains, query)
  {
    PermutedInclude(lines, taken, lines', taken');
    PermutedInclude(lines', taken', lines, taken);
  }

  lemma PermutedInclude(lines: seq<CString>, taken: seq<bool>, lines': seq<CString>, taken': seq<bool>)
    requires |lines| == |taken| && |lines'| == |taken'| && AllTaken(lines', taken')
    requires multiset(lines) == multiset(lines')
    ensures Listed(TakenEntries(lines, taken)) <= Listed(TakenEntries(lines', taken'))
  {
    forall l | l in Listed(TakenEntries(lines, taken))
      ensures l in Listed(TakenEntries(lines', taken'))
    {
      ListedByLine(lines, taken, l);
      ListedByLine(lines', taken', l);
      var i :| 0 <= i < |lines| && taken[i] && Means(lines[i], l);
      assert lines[i] in multiset(lines) && lines[i] in multiset(lines');
      var j :| 0 <= j < |lines'| && lines'[j] == lines[i];
      assert taken'[j];
    }
  }
}
