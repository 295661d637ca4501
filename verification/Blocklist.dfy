/** The meaning of a block list: a set of names, each standing for itself and all names under it. */
module Blocklist {
  import opened Bytes
  import opened Names
  import opened Normalizer

  // normalize_domain() is called with a buffer of DNS_MAX_NAME_LEN + 1 bytes.
  const NAME_BUFFER := MAX_NAME_LEN + 1

  const MAX_DEPTH := 128

  /** The labels a written name stands for; None for a text that is not a usable name. */
  function LabelList(domain: CString): Option<seq<Label>> {
    match Normalized(domain, NAME_BUFFER)
    case None => None
    case Some(text) => if AllShort(Fields(text)) then Some(Fields(text)) else None
  }

  /** The lists that can label a path from the root. */
  ghost predicate IsPath(labels: seq<Label>) {
    ProperLabels(labels) && |Join(labels)| <= MAX_NAME_LEN
  }

  /** The label lists of the usable names in a list of written names. */
  ghost function Listed(domains: seq<CString>): set<seq<Label>> {
    set d | d in domains && LabelList(d).Some? :: LabelList(d).value
  }

  lemma ListedSnoc(names: seq<CString>, name: CString)
    ensures Listed(names + [name]) ==
            Listed(names) + if LabelList(name).Some? then {LabelList(name).value} else {}
  {
    var all := names + [name];
    assert forall d :: d in all <==> d in names || d == name;
  }

  /** Some blocked name is the queried name itself or an ancestor of it. */
  ghost predicate Covers(blocked: set<seq<Label>>, name: seq<Label>) {
    exists l :: l in blocked && EndsWith(name, l)
  }

  ghost predicate Verdict(blocked: set<seq<Label>>, domain: CString) {
    LabelList(domain).Some? && Covers(blocked, LabelList(domain).value)
  }

  lemma LabelListIsPath(domain: CString)
    requires LabelList(domain).Some?
    ensures var labels := LabelList(domain).value; labels != [] && IsPath(labels)
  {
    NormalizedOutput(domain, NAME_BUFFER);
    JoinFields(Normalized(domain, NAME_BUFFER).value);
  }

  lemma PathDepth(labels: seq<Label>)
    requires IsPath(labels)
    ensures |labels| <= MAX_DEPTH
  {
    JoinLength(labels);
  }

  lemma SuffixIsPath(labels: seq<Label>, k: nat)
    requires IsPath(labels) && k <= |labels|
    ensures IsPath(labels[k..])
  {
    if 0 < k < |labels| {
      JoinConcat(labels[..k], labels[k..]);
      assert labels == labels[..k] + labels[k..];
    } else if k == 0 {
      assert labels[k..] == labels;
    }
  }

  /**
   * The verdict in terms of text: after clean-up the query equals a listed name, or ends with a
   * dot followed by it.
   */
  lemma VerdictOnText(domains: seq<CString>, query: CString)
    ensures Verdict(Listed(domains), query) <==>
            LabelList(query).Some? && exists d :: d in domains && SameOrUnder(query, d)
  {
    if LabelList(query).Some? {
      var q := Normalized(query, NAME_BUFFER).value;
      if Verdict(Listed(domains), query) {
        var l :| l in Listed(domains) && EndsWith(Fields(q), l);
        var d :| d in domains && LabelList(d) == Some(l);
        SuffixOfText(q, Normalized(d, NAME_BUFFER).value);
        assert SameOrUnder(query, d);
      }
      if exists d :: d in domains && SameOrUnder(query, d) {
        var d :| d in domains && SameOrUnder(query, d);
        SuffixOfText(q, Normalized(d, NAME_BUFFER).value);
        assert LabelList(d).value in Listed(domains);
      }
    }
  }

  ghost predicate SameOrUnder(query: CString, d: CString)
    requires LabelList(query).Some?
  {
    && LabelList(d).Some?
    && var q, t := Normalized(query, NAME_BUFFER).value, Normalized(d, NAME_BUFFER).value;
       q == t || EndsWith(q, [DOT] + t)
  }
}
