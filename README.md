# Edge line-break repair for a PO translation catalog

This project models `tools/fix_po_newlines.py`, the tool that repairs the
edge line breaks of a gettext PO catalog. Every translation (`msgstr`, and
each `msgstr[n]` of a plural entry) is made to start and end with as many
`\n` characters as the entry's singular `msgid`. The catalog compiler
requires that parity.

The model has two modules.

- `Newlines` (`newlines.dfy`) covers the string level:
  - `count_leading_n` and `count_trailing_n` are modelled twice. The
    recursive functions `LeadingNewlines` and `TrailingNewlines` define the
    counts. The methods `CountLeadingN` and `CountTrailingN` are the
    source's counter loops, proved equal to those functions.
  - `LStrip`, `RStrip` and `Core` are `text.lstrip("\n").rstrip("\n")`.
  - `Adjust` is `adjust_newlines`.
  - `FixOne` is the `fix_one` closure, with the reference counts passed as
    arguments.
- `Catalog` (`catalog.dfy`) covers the catalog level:
  - An `Entry` holds `msgid`, `obsolete`, `msgstr` and the plural map.
  - `FixEntry` is the repair of one entry.
  - `Changes` counts the translation strings whose value differs between
    two versions of an entry.
  - `FixPluralCounting` and `FixEntryCounting` are the loop bodies of
    `process_file`. `ProcessFile` is its loop over an array of entries,
    returning the change count and whether a save is requested.

One edge case is stated as it is, not smoothed over. A text made only of
line breaks has an empty core. `Adjust` then returns `lead + trail` line
breaks, whose leading and trailing counts are both `lead + trail`. So the
exact-count property holds only for texts with at least one character
other than `\n`. One might expect the result always to have the reference
counts. The code does not do that for blank texts, and the model follows
the code (`AdjustAllNewlines`, `FixOneKeepsBlankRun`).

Two consequences of the code as written are stated as lemmas:

- An empty singular `msgstr` is skipped (`if entry.msgstr:`), but an empty
  plural translation is not. It is replaced by `lead + trail` line breaks
  (`FixEntryFillsEmptyPlural`).
- A blank translation of exactly `lead + trail` line breaks is left as it
  is and not counted. When `lead + trail > 0`, its edge counts (both
  `lead + trail`) differ from the reference (`FixOneKeepsBlankRun`).

## Model

| member | source | states |
|---|---|---|
| `Newlines.LeadingNewlines` | tools/fix_po_newlines.py:9-14 | the leading count never exceeds the length of the string |
| `Newlines.TrailingNewlines` | tools/fix_po_newlines.py:17-22 | the trailing count never exceeds the length of the string |
| `Newlines.LeadingNewlinesSpec` | tools/fix_po_newlines.py:9-14 | the first k characters are all `\n` and either k is the length or character k is not `\n` |
| `Newlines.TrailingNewlinesSpec` | tools/fix_po_newlines.py:17-22 | the last k characters are all `\n` and either k is the length or character len-1-k is not `\n` |
| `Newlines.CountLeadingN` | tools/fix_po_newlines.py:9-14 | the counter loop stops at k <= len(s) with s[0..k) all `\n` and k == len(s) or s[k] != `\n`, i.e. at the leading count |
| `Newlines.CountTrailingN` | tools/fix_po_newlines.py:17-22 | the counter loop stops at k <= len(s) with the last k characters all `\n` and k == len(s) or s[len-1-k] != `\n`, i.e. at the trailing count |
| `Newlines.Core` | tools/fix_po_newlines.py:27 | the stripped text neither starts nor ends with `\n`, and it is empty exactly when the text is made only of `\n` |
| `Newlines.SplitEdges` | tools/fix_po_newlines.py:27 | a text with a core is its leading line breaks, then its core, then its trailing line breaks |
| `Newlines.AdjustExactCounts` | tools/fix_po_newlines.py:25-28 | if the text has a character other than `\n`, the result has exactly `lead` leading and `trail` trailing line breaks |
| `Newlines.AdjustAllNewlines` | tools/fix_po_newlines.py:25-28 | a text made only of `\n` becomes `lead + trail` line breaks, and both edge counts of the result are `lead + trail` |
| `Newlines.AdjustKeepsCore` | tools/fix_po_newlines.py:27-28 | stripping the edges of the result gives the same string as stripping the edges of the text |
| `Newlines.AdjustIdempotent` | tools/fix_po_newlines.py:25-28 | adjusting an adjusted text to the same counts gives the same string |
| `Newlines.AdjustToOwnCounts` | tools/fix_po_newlines.py:25-28 | adjusting a text with a core to its own counts gives it back; a blank text gets twice its length |
| `Newlines.FixOneKeepsCore` | tools/fix_po_newlines.py:41-48 | the repair of a string never changes the text between its edge line breaks |
| `Newlines.FixOneAligns` | tools/fix_po_newlines.py:44-48 | after the repair, a string with a core has the reference leading and trailing counts |
| `Newlines.FixOneChangesIff` | tools/fix_po_newlines.py:44-48 | a string with a core is changed if and only if one of its edge counts differs from the reference |
| `Newlines.FixOneIdempotent` | tools/fix_po_newlines.py:41-48 | repairing a repaired string changes nothing, for every string including blank ones |
| `Newlines.FixOneKeepsBlankRun` | tools/fix_po_newlines.py:44-48 | a run of `lead + trail` line breaks is returned unchanged although both of its counts are `lead + trail` |
| `Newlines.FixOneFillsEmpty` | tools/fix_po_newlines.py:44-48 | the empty string becomes `lead + trail` line breaks |
| `Catalog.FixPlural` | tools/fix_po_newlines.py:59-64 | repairing the plural translations keeps the set of plural indices |
| `Catalog.FixEntry` | tools/fix_po_newlines.py:35-64 | the repair never alters msgid, the obsolete flag or the plural indices; it leaves obsolete entries untouched and keeps an empty msgstr empty |
| `Catalog.FixEntryKeepsCores` | tools/fix_po_newlines.py:50-64 | the repair of an entry keeps the core of msgstr and of every plural translation |
| `Catalog.FixEntryAligns` | tools/fix_po_newlines.py:37-64 | in a live entry, msgstr and every plural translation that has a core end up with the leading and trailing counts of the singular msgid |
| `Catalog.FixEntryFillsEmptyPlural` | tools/fix_po_newlines.py:59-64 | an empty plural translation of a live entry becomes the msgid's leading plus trailing count of line breaks |
| `Catalog.FixEntryIdempotent` | tools/fix_po_newlines.py:35-64 | repairing a repaired entry changes nothing |
| `Catalog.ChangesZeroIff` | tools/fix_po_newlines.py:53-64 | the repair of an entry changes no string if and only if it leaves the entry as it was |
| `Catalog.FixPluralCounting` | tools/fix_po_newlines.py:59-64 | the plural loop yields the repaired plural map and the number of plural indices whose value changed |
| `Catalog.FixEntryCounting` | tools/fix_po_newlines.py:35-64 | one iteration yields the repaired entry and the number of its translation strings whose new value differs from the old |
| `Catalog.FixAll` | tools/fix_po_newlines.py:35 | the repaired catalog has as many entries as the original |
| `Catalog.FixAllAt` | tools/fix_po_newlines.py:35-64 | entry i of the repaired catalog is the repair of entry i |
| `Catalog.TotalChangesZeroIff` | tools/fix_po_newlines.py:53-71 | the change count of a pass is zero if and only if the pass leaves the whole catalog as it was |
| `Catalog.RerunChangesNothing` | tools/fix_po_newlines.py:31-71 | a second pass over a repaired catalog leaves it as it is and counts zero changes |
| `Catalog.ProcessFile` | tools/fix_po_newlines.py:31-71 | every entry is replaced by its repair, the returned count is the number of strings whose value changed, and a save is requested exactly when that count is positive and this is not a dry run |

## Left out

- Reading and writing the PO file through `polib.pofile` and `po.save`
  (tools/fix_po_newlines.py:32, 69) are foreign library calls. The catalog
  is an in-memory array of entries, and the save becomes the returned
  `save` flag.
- The `.bak` backup through `shutil.copy2` (tools/fix_po_newlines.py:67-68)
  is file-system I/O and is not modelled. The `backup` flag only affects
  that copy.
- `main` (tools/fix_po_newlines.py:74-93) is left out: argument parsing,
  the file-existence check and the printed summary are command-line
  plumbing.
- The `None` guards (`entry.msgid or ""` and `if s is None` in `fix_one`)
  are dropped, because strings here are never null.
- `process_file` mutates polib entry objects in place. The model replaces
  each array slot with a new `Entry` value, so object identity and
  aliasing are not modelled.
- The fields of an entry that the tool neither reads nor writes (context,
  plural msgid, flags, comments, references) are not modelled. Neither is
  the catalog header, which polib keeps apart from the entries.
- The plural loop takes indices in an unspecified order, where Python
  follows the dict's insertion order. The result and the count do not
  depend on the order.
- The repository's translation script is outside this model. Only the
  line-break repair tool is modelled.
