/** Edge line breaks of a translated string: counting them, stripping them
    and putting back a chosen number of them (tools/fix_po_newlines.py). */
module Newlines {

  const NL: char := '\n'

  /** The string of n line breaks. */
  function Repeat(n: nat): (r: string)
    ensures |r| == n
  {
    seq(n, _ => NL)
  }

  /** s is made only of line breaks (the empty string included): stripping
      its leading line breaks leaves nothing. */
  predicate AllNewlines(s: string)
  {
    LeadingNewlines(s) == |s|
  }

  /** s has nothing left to strip at either edge. */
  predicate Trimmed(s: string)
  {
    s == [] || (s[0] != NL && s[|s| - 1] != NL)
  }

  // ---------------------------------------------------------------------
  // Counting edge line breaks

  /** Number of line breaks at the start of s. */
  function LeadingNewlines(s: string): (k: nat)
    ensures k <= |s|
  {
    if |s| > 0 && s[0] == NL then 1 + LeadingNewlines(s[1..]) else 0
  }

  /** Number of line breaks at the end of s. */
  function TrailingNewlines(s: string): (k: nat)
    ensures k <= |s|
  {
    if |s| > 0 && s[|s| - 1] == NL then 1 + TrailingNewlines(s[..|s| - 1]) else 0
  }

  /** The first LeadingNewlines(s) characters are line breaks and the one
      after them, if any, is not. */
  lemma {:induction false} LeadingNewlinesSpec(s: string)
    ensures forall j :: 0 <= j < LeadingNewlines(s) ==> s[j] == NL
    ensures LeadingNewlines(s) == |s| || s[LeadingNewlines(s)] != NL
    decreases |s|
  {
    if |s| > 0 && s[0] == NL {
      LeadingNewlinesSpec(s[1..]);
      assert forall j :: 1 <= j <= LeadingNewlines(s[1..]) ==> s[j] == s[1..][j - 1];
    }
  }

  /** The last TrailingNewlines(s) characters are line breaks and the one
      before them, if any, is not. */
  lemma {:induction false} TrailingNewlinesSpec(s: string)
    ensures forall j :: |s| - TrailingNewlines(s) <= j < |s| ==> s[j] == NL
    ensures TrailingNewlines(s) == |s| || s[|s| - 1 - TrailingNewlines(s)] != NL
    decreases |s|
  {
    if |s| > 0 && s[|s| - 1] == NL {
      var init := s[..|s| - 1];
      TrailingNewlinesSpec(init);
      assert forall j :: 0 <= j < |init| ==> s[j] == init[j];
    }
  }

  /** The leading count is the only number with its characterising property. */
  lemma LeadingUnique(s: string, k: nat)
    requires k <= |s|
    requires forall j :: 0 <= j < k ==> s[j] == NL
    requires k == |s| || s[k] != NL
    ensures LeadingNewlines(s) == k
  {
    LeadingNewlinesSpec(s);
  }

  /** The trailing count is the only number with its characterising property. */
  lemma TrailingUnique(s: string, k: nat)
    requires k <= |s|
    requires forall j :: |s| - k <= j < |s| ==> s[j] == NL
    requires k == |s| || s[|s| - 1 - k] != NL
    ensures TrailingNewlines(s) == k
  {
    TrailingNewlinesSpec(s);
  }

  /** count_leading_n: steps a counter over the leading line breaks. */
  method CountLeadingN(s: string) returns (i: nat)
    ensures i <= |s|
    ensures forall j :: 0 <= j < i ==> s[j] == NL
    ensures i == |s| || s[i] != NL
    ensures i == LeadingNewlines(s)
  {
    i := 0;
    var n := |s|;
    while i < n && s[i] == NL
      invariant i <= n
      invariant forall j :: 0 <= j < i ==> s[j] == NL
    {
      i := i + 1;
    }
    LeadingUnique(s, i);
  }

  /** count_trailing_n: steps a counter over the trailing line breaks. */
  method CountTrailingN(s: string) returns (i: nat)
    ensures i <= |s|
    ensures forall j :: |s| - i <= j < |s| ==> s[j] == NL
    ensures i == |s| || s[|s| - 1 - i] != NL
    ensures i == TrailingNewlines(s)
  {
    i := 0;
    var n := |s|;
    while i < n && s[n - 1 - i] == NL
      invariant i <= n
      invariant forall j :: n - i <= j < n ==> s[j] == NL
    {
      i := i + 1;
    }
    TrailingUnique(s, i);
  }

  // ---------------------------------------------------------------------
  // Stripping and re-padding

  /** s with its leading line breaks removed. */
  function LStrip(s: string): (r: string)
  {
    s[LeadingNewlines(s)..]
  }

  /** s with its trailing line breaks removed. */
  function RStrip(s: string): (r: string)
  {
    s[..|s| - TrailingNewlines(s)]
  }

  /** The text between the edge line breaks of s: empty exactly when s is
      made only of line breaks, and never starting or ending with one. */
  function Core(s: string): (r: string)
    ensures Trimmed(r)
    ensures r == [] <==> AllNewlines(s)
  {
    var x := LStrip(s);
    var r := RStrip(x);
    LeadingNewlinesSpec(s);
    TrailingNewlinesSpec(x);
    assert !AllNewlines(s) ==> x != [] && x[0] != NL;
    r
  }

  /** AllNewlines(s) holds exactly when every character of s is a line break. */
  lemma AllNewlinesIff(s: string)
    ensures AllNewlines(s) <==> forall j :: 0 <= j < |s| ==> s[j] == NL
  {
    LeadingNewlinesSpec(s);
    if forall j :: 0 <= j < |s| ==> s[j] == NL {
      LeadingUnique(s, |s|);
    }
  }

  /** A string of line breaks only is the run of its length. */
  lemma RunIsRepeat(s: string)
    requires forall j :: 0 <= j < |s| ==> s[j] == NL
    ensures s == Repeat(|s|)
  {
  }

  /** A string is its leading line breaks followed by what LStrip keeps. */
  lemma SplitLeading(s: string)
    ensures s == Repeat(LeadingNewlines(s)) + LStrip(s)
  {
    var l := LeadingNewlines(s);
    LeadingNewlinesSpec(s);
    RunIsRepeat(s[..l]);
    assert s == s[..l] + s[l..];
  }

  /** A string is what RStrip keeps followed by its trailing line breaks. */
  lemma SplitTrailing(s: string)
    ensures s == RStrip(s) + Repeat(TrailingNewlines(s))
  {
    var t := TrailingNewlines(s);
    TrailingNewlinesSpec(s);
    RunIsRepeat(s[|s| - t..]);
    assert s == s[..|s| - t] + s[|s| - t..];
  }

  /** A string is its leading line breaks, its core and its trailing line
      breaks, unless it has no core. */
  lemma SplitEdges(s: string)
    requires !AllNewlines(s)
    ensures s == Repeat(LeadingNewlines(s)) + Core(s) + Repeat(TrailingNewlines(s))
  {
    var l := LeadingNewlines(s);
    var x := LStrip(s);
    var t := TrailingNewlines(x);
    SplitLeading(s);
    SplitTrailing(x);
    assert s == Repeat(l) + Core(s) + Repeat(t);
    PaddedCounts(l, Core(s), t);
  }

  /** Counts and core of a string built from padding around a trimmed core. */
  lemma PaddedCounts(l: nat, c: string, t: nat)
    requires Trimmed(c)
    ensures Core(Repeat(l) + c + Repeat(t)) == c
    ensures c != [] ==> LeadingNewlines(Repeat(l) + c + Repeat(t)) == l
    ensures c != [] ==> TrailingNewlines(Repeat(l) + c + Repeat(t)) == t
    ensures c == [] ==> LeadingNewlines(Repeat(l) + c + Repeat(t)) == l + t
    ensures c == [] ==> TrailingNewlines(Repeat(l) + c + Repeat(t)) == l + t
  {
    var s := Repeat(l) + c + Repeat(t);
    if c == [] {
      LeadingUnique(s, |s|);
      TrailingUnique(s, |s|);
    } else {
      assert forall j :: 0 <= j < l ==> s[j] == Repeat(l)[j];
      assert s[l] == c[0];
      LeadingUnique(s, l);
      assert forall j :: |s| - t <= j < |s| ==> s[j] == Repeat(t)[j - l - |c|];
      assert s[|s| - 1 - t] == c[|c| - 1];
      TrailingUnique(s, t);
      var x := c + Repeat(t);
      assert LStrip(s) == x;
      assert forall j :: |x| - t <= j < |x| ==> x[j] == Repeat(t)[j - |c|];
      assert x[|x| - 1 - t] == c[|c| - 1];
      TrailingUnique(x, t);
      assert RStrip(x) == c;
    }
  }

  /** adjust_newlines: strip every edge line break, then put lead of them in
      front and trail of them behind. */
  function Adjust(text: string, lead: nat, trail: nat): (r: string)
  {
    Repeat(lead) + Core(text) + Repeat(trail)
  }

  /** With some text between the edges, the result has exactly the asked-for
      numbers of leading and trailing line breaks. */
  lemma AdjustExactCounts(text: string, lead: nat, trail: nat)
    requires !AllNewlines(text)
    ensures LeadingNewlines(Adjust(text, lead, trail)) == lead
    ensures TrailingNewlines(Adjust(text, lead, trail)) == trail
  {
    PaddedCounts(lead, Core(text), trail);
  }

  /** A text made only of line breaks becomes lead + trail line breaks, so
      both of its edge counts are lead + trail. */
  lemma AdjustAllNewlines(text: string, lead: nat, trail: nat)
    requires AllNewlines(text)
    ensures Adjust(text, lead, trail) == Repeat(lead + trail)
    ensures LeadingNewlines(Adjust(text, lead, trail)) == lead + trail
    ensures TrailingNewlines(Adjust(text, lead, trail)) == lead + trail
  {
    PaddedCounts(lead, [], trail);
    assert Repeat(lead) + [] + Repeat(trail) == Repeat(lead + trail);
  }

  /** Stripping the edges of the result gives the same text as stripping the
      edges of the input. */
  lemma AdjustKeepsCore(text: string, lead: nat, trail: nat)
    ensures Core(Adjust(text, lead, trail)) == Core(text)
  {
    PaddedCounts(lead, Core(text), trail);
  }

  /** Adjusting twice to the same counts is adjusting once. */
  lemma AdjustIdempotent(text: string, lead: nat, trail: nat)
    ensures Adjust(Adjust(text, lead, trail), lead, trail) == Adjust(text, lead, trail)
  {
    AdjustKeepsCore(text, lead, trail);
  }

  /** Adjusting a string to its own counts gives it back when it has a core,
      and doubles it when it is a non-empty run of line breaks. */
  lemma AdjustToOwnCounts(s: string)
    ensures !AllNewlines(s) ==> Adjust(s, LeadingNewlines(s), TrailingNewlines(s)) == s
    ensures AllNewlines(s) ==> |Adjust(s, LeadingNewlines(s), TrailingNewlines(s))| == 2 * |s|
  {
    if AllNewlines(s) {
      AllNewlinesIff(s);
      TrailingUnique(s, |s|);
    } else {
      SplitEdges(s);
    }
  }

  // ---------------------------------------------------------------------
  // The per-string repair

  /** fix_one: keep s when its edge counts already equal the reference
      counts, otherwise adjust it to them. Its core is never touched. */
  function FixOne(s: string, leadRef: nat, trailRef: nat): (r: string)
  {
    if LeadingNewlines(s) == leadRef && TrailingNewlines(s) == trailRef then s
    else Adjust(s, leadRef, trailRef)
  }

  /** The repair never touches the text between the edge line breaks. */
  lemma FixOneKeepsCore(s: string, leadRef: nat, trailRef: nat)
    ensures Core(FixOne(s, leadRef, trailRef)) == Core(s)
  {
    AdjustKeepsCore(s, leadRef, trailRef);
  }

  /** After the repair, a string with a core has the reference counts. */
  lemma FixOneAligns(s: string, leadRef: nat, trailRef: nat)
    requires !AllNewlines(s)
    ensures LeadingNewlines(FixOne(s, leadRef, trailRef)) == leadRef
    ensures TrailingNewlines(FixOne(s, leadRef, trailRef)) == trailRef
  {
    if !(LeadingNewlines(s) == leadRef && TrailingNewlines(s) == trailRef) {
      AdjustExactCounts(s, leadRef, trailRef);
    }
  }

  /** A string with a core is changed exactly when one of its edge counts
      differs from the reference. */
  lemma FixOneChangesIff(s: string, leadRef: nat, trailRef: nat)
    requires !AllNewlines(s)
    ensures FixOne(s, leadRef, trailRef) != s
        <==> LeadingNewlines(s) != leadRef || TrailingNewlines(s) != trailRef
  {
    FixOneAligns(s, leadRef, trailRef);
  }

  /** Repairing a repaired string changes nothing, for every string. */
  lemma FixOneIdempotent(s: string, leadRef: nat, trailRef: nat)
    ensures FixOne(FixOne(s, leadRef, trailRef), leadRef, trailRef) == FixOne(s, leadRef, trailRef)
  {
    var r := FixOne(s, leadRef, trailRef);
    if r != s {
      if AllNewlines(s) {
        AdjustAllNewlines(s, leadRef, trailRef);
        assert AllNewlines(r);
        AdjustAllNewlines(r, leadRef, trailRef);
      } else {
        FixOneAligns(s, leadRef, trailRef);
      }
    }
  }

  /** A run of leadRef + trailRef line breaks is left as it is, although its
      two edge counts are both leadRef + trailRef. */
  lemma FixOneKeepsBlankRun(leadRef: nat, trailRef: nat)
    ensures FixOne(Repeat(leadRef + trailRef), leadRef, trailRef) == Repeat(leadRef + trailRef)
    ensures LeadingNewlines(FixOne(Repeat(leadRef + trailRef), leadRef, trailRef)) == leadRef + trailRef
    ensures TrailingNewlines(FixOne(Repeat(leadRef + trailRef), leadRef, trailRef)) == leadRef + trailRef
  {
    var s := Repeat(leadRef + trailRef);
    AllNewlinesIff(s);
    AdjustAllNewlines(s, leadRef, trailRef);
  }

  /** The empty string becomes leadRef + trailRef line breaks. */
  lemma FixOneFillsEmpty(leadRef: nat, trailRef: nat)
    ensures FixOne("", leadRef, trailRef) == Repeat(leadRef + trailRef)
  {
    AdjustAllNewlines("", leadRef, trailRef);
  }
}
