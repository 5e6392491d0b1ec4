/** The per-entry repair of a PO catalog and the pass of process_file over
    all of its entries (tools/fix_po_newlines.py). */
module Catalog {
  import opened Newlines

  /** One catalog entry: the singular source text, whether the entry is
      obsolete, the singular translation and the plural translations by
      plural index. */
  datatype Entry = Entry(msgid: string, obsolete: bool, msgstr: string, msgstrPlural: map<int, string>)

  /** The plural indices whose translation differs between a and b. */
  function DiffKeys(a: map<int, string>, b: map<int, string>): set<int>
  {
    set k | k in a && k in b && a[k] != b[k]
  }

  /** Number of translation strings (the singular one and each plural one)
      whose value differs between entry e and entry e'. */
  function Changes(e: Entry, e': Entry): nat
  {
    (if e.msgstr != e'.msgstr then 1 else 0) + |DiffKeys(e.msgstrPlural, e'.msgstrPlural)|
  }

  /** Every plural translation repaired against the same reference counts. */
  function FixPlural(m: map<int, string>, leadRef: nat, trailRef: nat): (r: map<int, string>)
    ensures r.Keys == m.Keys
  {
    map k | k in m :: FixOne(m[k], leadRef, trailRef)
  }

  /** The repair of one entry: obsolete entries stay as they are; otherwise
      a non-empty singular translation and every plural translation are
      repaired against the edge counts of the singular msgid. Nothing but
      translation strings changes. */
  function FixEntry(e: Entry): (r: Entry)
    ensures r.msgid == e.msgid && r.obsolete == e.obsolete
    ensures r.msgstrPlural.Keys == e.msgstrPlural.Keys
    ensures e.obsolete ==> r == e
    ensures e.msgstr == "" ==> r.msgstr == ""
  {
    if e.obsolete then e
    else
      var leadRef := LeadingNewlines(e.msgid);
      var trailRef := TrailingNewlines(e.msgid);
      e.(msgstr := if e.msgstr != "" then FixOne(e.msgstr, leadRef, trailRef) else e.msgstr,
         msgstrPlural := FixPlural(e.msgstrPlural, leadRef, trailRef))
  }

  /** The repair never touches the text between the edge line breaks of
      any translation. */
  lemma FixEntryKeepsCores(e: Entry)
    ensures Core(FixEntry(e).msgstr) == Core(e.msgstr)
    ensures forall k :: k in e.msgstrPlural ==> Core(FixEntry(e).msgstrPlural[k]) == Core(e.msgstrPlural[k])
  {
    var leadRef := LeadingNewlines(e.msgid);
    var trailRef := TrailingNewlines(e.msgid);
    FixOneKeepsCore(e.msgstr, leadRef, trailRef);
    forall k | k in e.msgstrPlural
      ensures Core(FixEntry(e).msgstrPlural[k]) == Core(e.msgstrPlural[k])
    {
      FixOneKeepsCore(e.msgstrPlural[k], leadRef, trailRef);
    }
  }

  /** After the repair, every translation of a live entry that has text
      between its edges starts and ends with exactly as many line breaks
      as the singular msgid. */
  lemma FixEntryAligns(e: Entry)
    requires !e.obsolete
    ensures !AllNewlines(e.msgstr) ==>
              LeadingNewlines(FixEntry(e).msgstr) == LeadingNewlines(e.msgid) &&
              TrailingNewlines(FixEntry(e).msgstr) == TrailingNewlines(e.msgid)
    ensures forall k :: k in e.msgstrPlural && !AllNewlines(e.msgstrPlural[k]) ==>
              LeadingNewlines(FixEntry(e).msgstrPlural[k]) == LeadingNewlines(e.msgid) &&
              TrailingNewlines(FixEntry(e).msgstrPlural[k]) == TrailingNewlines(e.msgid)
  {
    var leadRef := LeadingNewlines(e.msgid);
    var trailRef := TrailingNewlines(e.msgid);
    if !AllNewlines(e.msgstr) {
      FixOneAligns(e.msgstr, leadRef, trailRef);
    }
    forall k | k in e.msgstrPlural && !AllNewlines(e.msgstrPlural[k])
      ensures LeadingNewlines(FixEntry(e).msgstrPlural[k]) == leadRef
      ensures TrailingNewlines(FixEntry(e).msgstrPlural[k]) == trailRef
    {
      FixOneAligns(e.msgstrPlural[k], leadRef, trailRef);
    }
  }

  /** Unlike the singular translation, an empty plural translation is not
      passed over: it becomes the msgid's leading plus trailing line breaks. */
  lemma FixEntryFillsEmptyPlural(e: Entry, k: int)
    requires !e.obsolete && k in e.msgstrPlural && e.msgstrPlural[k] == ""
    ensures FixEntry(e).msgstrPlural[k] == Repeat(LeadingNewlines(e.msgid) + TrailingNewlines(e.msgid))
  {
    FixOneFillsEmpty(LeadingNewlines(e.msgid), TrailingNewlines(e.msgid));
  }

  /** Repairing a repaired entry changes nothing. */
  lemma FixEntryIdempotent(e: Entry)
    ensures FixEntry(FixEntry(e)) == FixEntry(e)
  {
    if !e.obsolete {
      var leadRef := LeadingNewlines(e.msgid);
      var trailRef := TrailingNewlines(e.msgid);
      var r := FixEntry(e);
      var r2 := FixEntry(r);
      if e.msgstr != "" {
        FixOneIdempotent(e.msgstr, leadRef, trailRef);
      }
      forall k | k in e.msgstrPlural
        ensures r2.msgstrPlural[k] == r.msgstrPlural[k]
      {
        FixOneIdempotent(e.msgstrPlural[k], leadRef, trailRef);
      }
      assert r2.msgstrPlural == r.msgstrPlural;
    }
  }

  /** An entry compared with itself has no changed string. */
  lemma ChangesSelf(e: Entry)
    ensures Changes(e, e) == 0
  {
    assert DiffKeys(e.msgstrPlural, e.msgstrPlural) == {};
  }

  /** The repair reports no changed string exactly when it leaves the entry
      as it was. */
  lemma ChangesZeroIff(e: Entry)
    ensures Changes(e, FixEntry(e)) == 0 <==> FixEntry(e) == e
  {
    var r := FixEntry(e);
    ChangesSelf(e);
    if Changes(e, r) == 0 {
      forall k | k in e.msgstrPlural
        ensures e.msgstrPlural[k] == r.msgstrPlural[k]
      {
        assert k !in DiffKeys(e.msgstrPlural, r.msgstrPlural);
      }
      assert e.msgstrPlural == r.msgstrPlural;
    }
  }

  /** The inner loop of process_file over the plural translations of one
      entry: repairs each of them and counts those whose value changed. */
  method FixPluralCounting(plural: map<int, string>, leadRef: nat, trailRef: nat)
    returns (fixed: map<int, string>, d: nat)
    ensures fixed == FixPlural(plural, leadRef, trailRef)
    ensures d == |DiffKeys(plural, fixed)|
  {
    fixed := plural;
    d := 0;
    var todo := plural.Keys;
    while todo != {}
      invariant todo <= plural.Keys
      invariant fixed.Keys == plural.Keys
      invariant forall k :: k in plural && k !in todo ==> fixed[k] == FixOne(plural[k], leadRef, trailRef)
      invariant forall k :: k in todo ==> fixed[k] == plural[k]
      invariant d == |DiffKeys(plural, fixed)|
      decreases |todo|
    {
      assert exists k :: k in todo by {
        if forall k :: k !in todo {
          assert false;
        }
      }
      var k :| k in todo;
      var s := FixOne(plural[k], leadRef, trailRef);
      if s != plural[k] {
        ghost var before := DiffKeys(plural, fixed);
        fixed := fixed[k := s];
        assert DiffKeys(plural, fixed) == before + {k};
        d := d + 1;
      }
      todo := todo - {k};
    }
    forall k | k in plural
      ensures fixed[k] == FixPlural(plural, leadRef, trailRef)[k]
    {
    }
    assert fixed == FixPlural(plural, leadRef, trailRef);
  }

  /** The per-entry body of process_file's loop: repairs one entry and counts
      the strings whose value it changed. */
  method FixEntryCounting(e: Entry) returns (r: Entry, c: nat)
    ensures r == FixEntry(e)
    ensures c == Changes(e, r)
  {
    if e.obsolete {
      ChangesSelf(e);
      return e, 0;
    }
    var leadRef := CountLeadingN(e.msgid);
    var trailRef := CountTrailingN(e.msgid);
    var msgstr := e.msgstr;
    c := 0;
    if e.msgstr != "" {
      var s := FixOne(e.msgstr, leadRef, trailRef);
      if s != e.msgstr {
        msgstr := s;
        c := 1;
      }
    }
    var fixed, d := FixPluralCounting(e.msgstrPlural, leadRef, trailRef);
    r := e.(msgstr := msgstr, msgstrPlural := fixed);
    c := c + d;
  }

  /** The repair of every entry of a catalog, in order. */
  function FixAll(es: seq<Entry>): (r: seq<Entry>)
    ensures |r| == |es|
    decreases |es|
  {
    if es == [] then [] else FixAll(es[..|es| - 1]) + [FixEntry(es[|es| - 1])]
  }

  /** Entry i of the repaired catalog is the repair of entry i. */
  lemma {:induction false} FixAllAt(es: seq<Entry>, i: int)
    requires 0 <= i < |es|
    ensures FixAll(es)[i] == FixEntry(es[i])
    decreases |es|
  {
    if i < |es| - 1 {
      FixAllAt(es[..|es| - 1], i);
    }
  }

  /** Number of translation strings that differ between two catalogs of the
      same length, entry by entry. */
  function TotalChanges(olds: seq<Entry>, news: seq<Entry>): nat
    requires |olds| == |news|
    decreases |olds|
  {
    if olds == [] then 0
    else TotalChanges(olds[..|olds| - 1], news[..|news| - 1]) + Changes(olds[|olds| - 1], news[|news| - 1])
  }

  /** A catalog compared with itself has no changed string. */
  lemma {:induction false} TotalChangesSelf(es: seq<Entry>)
    ensures TotalChanges(es, es) == 0
    decreases |es|
  {
    if es != [] {
      TotalChangesSelf(es[..|es| - 1]);
      ChangesSelf(es[|es| - 1]);
    }
  }

  /** The total is zero exactly when the repair leaves the whole catalog as
      it was, so a save is requested exactly when some string changed. */
  lemma {:induction false} TotalChangesZeroIff(es: seq<Entry>)
    ensures TotalChanges(es, FixAll(es)) == 0 <==> FixAll(es) == es
    decreases |es|
  {
    if es != [] {
      var n := |es|;
      var init, last := es[..n - 1], es[n - 1];
      var r := FixAll(es);
      assert r[..n - 1] == FixAll(init) && r[n - 1] == FixEntry(last);
      TotalChangesZeroIff(init);
      ChangesZeroIff(last);
      assert es == init + [last];
      assert r == FixAll(init) + [FixEntry(last)];
      if r == es {
        assert FixAll(init) == init by { assert r[..n - 1] == es[..n - 1]; }
      }
    }
  }

  /** A second pass over a repaired catalog leaves it as it is and changes no
      string. */
  lemma {:induction false} RerunChangesNothing(es: seq<Entry>)
    ensures FixAll(FixAll(es)) == FixAll(es)
    ensures TotalChanges(FixAll(es), FixAll(FixAll(es))) == 0
    decreases |es|
  {
    if es != [] {
      var n := |es|;
      var r := FixAll(es);
      RerunChangesNothing(es[..n - 1]);
      FixEntryIdempotent(es[n - 1]);
      assert r[..n - 1] == FixAll(es[..n - 1]);
    }
    TotalChangesSelf(FixAll(es));
  }

  /** Two catalogs that agree entry by entry are equal. */
  lemma SameEntries(a: seq<Entry>, b: seq<Entry>)
    requires |a| == |b|
    requires forall j :: 0 <= j < |a| ==> a[j] == b[j]
    ensures a == b
  {
  }

  /** One more entry adds its own changes to the running total. */
  lemma TotalChangesStep(es: seq<Entry>, i: nat)
    requires i < |es|
    ensures TotalChanges(es[..i + 1], FixAll(es[..i + 1]))
         == TotalChanges(es[..i], FixAll(es[..i])) + Changes(es[i], FixEntry(es[i]))
  {
    var pre := es[..i + 1];
    assert pre[..i] == es[..i];
    assert FixAll(pre)[..i] == FixAll(es[..i]);
  }

  /** process_file on an in-memory catalog: repairs every entry in place,
      returns the number of strings it changed, and whether the catalog is
      to be saved (something changed and this is not a dry run). */
  method ProcessFile(entries: array<Entry>, dryRun: bool) returns (changed: nat, save: bool)
    modifies entries
    ensures entries[..] == FixAll(old(entries[..]))
    ensures changed == TotalChanges(old(entries[..]), entries[..])
    ensures save <==> changed > 0 && !dryRun
  {
    ghost var olds := entries[..];
    changed := 0;
    var i := 0;
    while i < entries.Length
      invariant 0 <= i <= entries.Length
      invariant forall j :: 0 <= j < i ==> entries[j] == FixEntry(olds[j])
      invariant forall j :: i <= j < entries.Length ==> entries[j] == olds[j]
      invariant changed == TotalChanges(olds[..i], FixAll(olds[..i]))
    {
      var cur := entries[i];
      assert cur == olds[i];
      var e, c := FixEntryCounting(cur);
      label before:
      entries[i] := e;
      assert forall j :: 0 <= j < entries.Length && j != i ==> entries[j] == old@before(entries[j]);
      TotalChangesStep(olds, i);
      changed := changed + c;
      i := i + 1;
    }
    ghost var want := FixAll(olds);
    ghost var got := entries[..];
    forall j | 0 <= j < |got|
      ensures got[j] == want[j]
    {
      FixAllAt(olds, j);
    }
    SameEntries(got, want);
    assert olds[..entries.Length] == olds;
    save := changed > 0 && !dryRun;
  }
}
