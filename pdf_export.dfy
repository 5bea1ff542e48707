/** The text rules of Services/PdfExportService.cs: how an entry's HTML
    content becomes plain text (`StripHtml`), and which blocks the journal
    document shows in which order (`GenerateJournalPdf` without its page
    layout). */
module PdfExport {
  import opened Wrappers
  import opened Text
  import opened DateTimes
  import opened JournalItems
  import opened Sorting

  // ---------------------------------------------------------------------
  // StripHtml

  /** The four fixed replacements, applied in this order: `<br>` and
      `<br/>` become a line break, `<p>` goes, `</p>` becomes a blank line. */
  function ReplaceBreaks(s: string): (r: string)
    ensures '<' !in s ==> r == s
  {
    LastPasses(Replace(s, "<br>", "\n"))
  }

  /** The three replacements after the first. */
  function LastPasses(s: string): string {
    Replace(Replace(Replace(s, "<br/>", "\n"), "<p>", ""), "</p>", "\n\n")
  }

  /** Text without '<' at the front goes through every replacement as it is. */
  lemma LastPassesKeep(u: string, s: string)
    requires forall i | 0 <= i < |u| :: u[i] != '<'
    ensures LastPasses(u + s) == u + LastPasses(s)
  {
    var a := Replace(s, "<br/>", "\n");
    ReplaceKeepAll(u, s, "<br/>", "\n");
    var b := Replace(a, "<p>", "");
    ReplaceKeepAll(u, a, "<p>", "");
    ReplaceKeepAll(u, b, "</p>", "\n\n");
  }

  /** A character other than '<' is copied. */
  lemma ReplaceBreaksKeep(c: char, s: string)
    requires c != '<'
    ensures ReplaceBreaks([c] + s) == [c] + ReplaceBreaks(s)
  {
    ReplaceKeepAll([c], s, "<br>", "\n");
    LastPassesKeep([c], Replace(s, "<br>", "\n"));
  }

  /** `<br>` becomes a line break. */
  lemma ReplaceBreaksLineBreak(s: string)
    ensures ReplaceBreaks("<br>" + s) == "\n" + ReplaceBreaks(s)
  {
    ReplaceMatch("<br>", s, "\n");
    LastPassesKeep("\n", Replace(s, "<br>", "\n"));
  }

  /** `<br/>` becomes a line break. */
  lemma ReplaceBreaksSelfClosing(s: string)
    ensures ReplaceBreaks("<br/>" + s) == "\n" + ReplaceBreaks(s)
  {
    var a := Replace(s, "<br>", "\n");
    KeepWord("<br/>", s, "<br>", "\n", 3);
    var b := Replace(a, "<br/>", "\n");
    ReplaceMatch("<br/>", a, "\n");
    ReplaceKeepAll("\n", b, "<p>", "");
    ReplaceKeepAll("\n", Replace(b, "<p>", ""), "</p>", "\n\n");
  }

  /** `<p>` is deleted. */
  lemma ReplaceBreaksOpenParagraph(s: string)
    ensures ReplaceBreaks("<p>" + s) == ReplaceBreaks(s)
  {
    var a := Replace(s, "<br>", "\n");
    KeepWord("<p>", s, "<br>", "\n", 1);
    var b := Replace(a, "<br/>", "\n");
    KeepWord("<p>", a, "<br/>", "\n", 1);
    var c := Replace(b, "<p>", "");
    ReplaceMatch("<p>", b, "");
    assert "" + c == c;
  }

  /** `</p>` becomes a blank line. */
  lemma ReplaceBreaksCloseParagraph(s: string)
    ensures ReplaceBreaks("</p>" + s) == "\n\n" + ReplaceBreaks(s)
  {
    var a := Replace(s, "<br>", "\n");
    KeepWord("</p>", s, "<br>", "\n", 1);
    var b := Replace(a, "<br/>", "\n");
    KeepWord("</p>", a, "<br/>", "\n", 1);
    var c := Replace(b, "<p>", "");
    KeepWord("</p>", b, "<p>", "", 1);
    ReplaceMatch("</p>", c, "\n\n");
  }

  /** No `</p>` is left: the last replacement removes every one. */
  lemma ReplaceBreaksLeavesNoClosingParagraph(s: string)
    ensures NoOccurrence(ReplaceBreaks(s), "</p>")
  {
    ReplaceLeavesNone(Replace(Replace(Replace(s, "<br>", "\n"), "<br/>", "\n"), "<p>", ""), "</p>", "\n\n");
  }

  /** A word that differs from the pattern at index `k`, and whose later
      characters do not open it, is copied. */
  lemma KeepWord(u: string, s: string, pattern: string, replacement: string, k: nat)
    requires pattern != [] && u != [] && k < |u| && k < |pattern| && u[k] != pattern[k]
    requires forall i | 1 <= i < |u| :: u[i] != pattern[0]
    ensures Replace(u + s, pattern, replacement) == u + Replace(s, pattern, replacement)
  {
    var c, v, tail := u[0], u[1..], Replace(s, pattern, replacement);
    assert u == [c] + v;
    Regroup(c, v, s);
    Mismatch([c] + (v + s), pattern, k);
    ReplaceKeep(c, v + s, pattern, replacement);
    ReplaceKeepAll(v, s, pattern, replacement);
    Regroup(c, v, tail);
  }

  /** The index of the first '>' of `t` when no line break comes before
      it: where the lazy `.*?>` of the pattern `<.*?>` stops, since `.`
      matches every character except '\n'. */
  function FindClose(t: string): (r: Option<nat>)
    ensures r.Some? ==> r.value < |t| && t[r.value] == '>'
    ensures r.Some? ==> forall k | 0 <= k < r.value :: t[k] != '>' && t[k] != '\n'
  {
    if t == [] || t[0] == '\n' then None
    else if t[0] == '>' then Some(0)
    else
      match FindClose(t[1..])
      case None => None
      case Some(k) => Some(k + 1)
  }

  /** `Regex.Replace(s, "<.*?>", "")`: scanning left to right, every '<'
      that has a '>' later on its line is removed up to the nearest such
      '>'; the scan resumes after it. */
  function RemoveTags(s: string): (r: string)
    ensures |r| <= |s|
    decreases |s|
  {
    if s == [] then []
    else if s[0] == '<' && FindClose(s[1..]).Some? then RemoveTags(s[FindClose(s[1..]).value + 2..])
    else [s[0]] + RemoveTags(s[1..])
  }

  /** `StripHtml`.  `decode` is WebUtility.HtmlDecode, whose entity table
      is not part of this model; it stands for any function that leaves
      '&'-free text as it is. */
  function StripHtml(input: NullableString, decode: string -> string): (r: string)
    ensures IsNullOrEmpty(input) ==> r == []
  {
    if IsNullOrEmpty(input) then []
    else Trim(decode(RemoveTags(ReplaceBreaks(input.value))))
  }

  /** The properties the model asks of `decode`. */
  ghost predicate IsHtmlDecoder(decode: string -> string) {
    forall t :: '&' !in t ==> decode(t) == t
  }

  /** No '>' in `t` before its first line break. */
  predicate NoCloseOnLine(t: string) {
    t == [] || t[0] == '\n' || (t[0] != '>' && NoCloseOnLine(t[1..]))
  }

  /** No '<' of `t` is followed by a '>' on the same line. */
  predicate NoTagLeft(t: string) {
    t == [] || ((t[0] == '<' ==> NoCloseOnLine(t[1..])) && NoTagLeft(t[1..]))
  }

  lemma {:induction false} FindCloseNone(t: string)
    ensures FindClose(t).None? <==> NoCloseOnLine(t)
  {
    if t != [] && t[0] != '\n' && t[0] != '>' {
      FindCloseNone(t[1..]);
    }
  }

  /** Removing tags keeps a line free of '>' free of it: what is removed
      never holds a line break, and nothing is added. */
  lemma {:induction false} RemoveTagsKeepsNoClose(s: string)
    requires NoCloseOnLine(s)
    ensures NoCloseOnLine(RemoveTags(s))
    decreases |s|
  {
    if s != [] && s[0] != '\n' {
      FindCloseNone(s[1..]);
      RemoveTagsKeepsNoClose(s[1..]);
    }
  }

  /** After the tag pass no '<' has a '>' after it on its line. */
  lemma {:induction false} RemoveTagsLeavesNoTag(s: string)
    ensures NoTagLeft(RemoveTags(s))
    decreases |s|
  {
    if s != [] {
      if s[0] == '<' && FindClose(s[1..]).Some? {
        RemoveTagsLeavesNoTag(s[FindClose(s[1..]).value + 2..]);
      } else {
        RemoveTagsLeavesNoTag(s[1..]);
        if s[0] == '<' {
          FindCloseNone(s[1..]);
          RemoveTagsKeepsNoClose(s[1..]);
        }
        assert ([s[0]] + RemoveTags(s[1..]))[1..] == RemoveTags(s[1..]);
      }
    }
  }

  /** What NoTagLeft means position by position. */
  lemma {:induction false} NoTagLeftMeans(t: string, i: nat, j: nat)
    requires NoTagLeft(t) && i < j < |t| && t[i] == '<' && t[j] == '>'
    ensures exists k | i < k < j :: t[k] == '\n'
    decreases i
  {
    if i > 0 {
      NoTagLeftMeans(t[1..], i - 1, j - 1);
      var k :| i - 1 < k < j - 1 && t[1..][k] == '\n';
      assert t[k + 1] == '\n';
    } else {
      NoCloseOnLineMeans(t[1..], j - 1);
      var k :| 0 <= k < j - 1 && t[1..][k] == '\n';
      assert t[k + 1] == '\n';
    }
  }

  lemma {:induction false} NoCloseOnLineMeans(t: string, j: nat)
    requires NoCloseOnLine(t) && j < |t| && t[j] == '>'
    ensures exists k | 0 <= k < j :: t[k] == '\n'
    decreases j
  {
    if t[0] != '\n' {
      NoCloseOnLineMeans(t[1..], j - 1);
      var k :| 0 <= k < j - 1 && t[1..][k] == '\n';
      assert t[k + 1] == '\n';
    }
  }

  /** Text without '<' has no tags to remove. */
  lemma {:induction false} RemoveTagsNoAngle(s: string)
    requires '<' !in s
    ensures RemoveTags(s) == s
    decreases |s|
  {
    if s != [] {
      assert '<' !in s[1..] by {
        forall k | 0 <= k < |s| - 1
          ensures s[1..][k] != '<'
        {
          assert s[1..][k] == s[k + 1];
        }
      }
      RemoveTagsNoAngle(s[1..]);
      assert s == [s[0]] + s[1..];
    }
  }

  /** The nearest '>' after text free of '>' and line breaks closes the match. */
  lemma {:induction false} FindCloseAt(u: string, s: string)
    requires '>' !in u && '\n' !in u
    ensures FindClose(u + ">" + s) == Some(|u|)
  {
    if u != [] {
      var t := u + ">" + s;
      assert t[0] == u[0] && t[1..] == u[1..] + ">" + s;
      FindCloseAt(u[1..], s);
    } else {
      assert u + ">" + s == ">" + s;
    }
  }

  /** A `<...>` match at the front, up to the nearest '>' on its line, is
      removed, and the scan goes on after it. */
  lemma RemoveTagsMatch(u: string, s: string)
    requires '>' !in u && '\n' !in u
    ensures RemoveTags("<" + u + ">" + s) == RemoveTags(s)
  {
    var t := "<" + u + ">" + s;
    assert t[1..] == u + ">" + s;
    FindCloseAt(u, s);
    assert t[|u| + 2..] == s;
  }

  /** A character other than '<' is kept, and the scan goes on after it. */
  lemma RemoveTagsKeep(c: char, s: string)
    requires c != '<'
    ensures RemoveTags([c] + s) == [c] + RemoveTags(s)
  {
    assert ([c] + s)[1..] == s;
  }

  /** A '<' with no '>' later on its line is kept, and the scan goes on
      after it. */
  lemma RemoveTagsUnclosed(s: string)
    requires NoCloseOnLine(s)
    ensures RemoveTags("<" + s) == "<" + RemoveTags(s)
  {
    FindCloseNone(s);
    assert ("<" + s)[1..] == s;
  }

  /** Text with neither '<' nor '&' comes out trimmed and otherwise as
      it went in. */
  lemma PlainTextOnlyTrimmed(s: string, decode: string -> string)
    requires IsHtmlDecoder(decode)
    requires '<' !in s && '&' !in s
    ensures StripHtml(Str(s), decode) == Trim(s)
  {
    RemoveTagsNoAngle(s);
    assert ReplaceBreaks(s) == s;
  }

  /** The result never starts or ends with white space. */
  lemma StripHtmlTrimmed(input: NullableString, decode: string -> string)
    ensures var r := StripHtml(input, decode); r == [] || (!IsWhiteSpace(r[0]) && !IsWhiteSpace(r[|r| - 1]))
  {
    if !IsNullOrEmpty(input) {
      TrimEnds(decode(RemoveTags(ReplaceBreaks(input.value))));
    }
  }

  // ---------------------------------------------------------------------
  // What the document shows

  /** One block of the document body.  An entry shows its date, its mood,
      the tags line when there are tags, and its stripped content. */
  datatype Block =
    | Placeholder
    | EntryBlock(date: DateTime, mood: NullableString, tagsLine: Option<string>, text: string)

  function EntryDateOf(item: JournalItem): DateTime {
    item.EntryDate
  }

  /** `entries.OrderByDescending(e => e.EntryDate)`: a stable sort. */
  function NewestFirst(entries: seq<JournalItem>): (r: seq<JournalItem>)
    ensures multiset(r) == multiset(entries)
  {
    SortDescPermutes(entries, EntryDateOf, Before);
    SortDesc(entries, EntryDateOf, Before)
  }

  /** `string.Join(", ", entry.TagList)`; a null tag joins as "". */
  function TagTexts(tags: seq<NullableString>): (r: seq<string>)
    ensures |r| == |tags|
    ensures forall i | 0 <= i < |tags| :: r[i] == Coalesce(tags[i], "")
  {
    seq(|tags|, i requires 0 <= i < |tags| => Coalesce(tags[i], ""))
  }

  /** The block for one entry.  Reading TagList can throw, and then the
      whole document fails. */
  function RenderEntry(item: JournalItem, decode: string -> string): (r: Result<Block>)
    ensures r.Success? <==> TagList(item).Success?
    ensures r.Success? ==> r.value.EntryBlock? && r.value.date == item.EntryDate && r.value.mood == item.PrimaryMood
    ensures r.Success? ==> (r.value.tagsLine.Some? <==> TagList(item).value != [])
    ensures r.Success? && r.value.tagsLine.Some? ==> r.value.tagsLine.value == Join(", ", TagTexts(TagList(item).value))
    ensures r.Success? ==> r.value.text == StripHtml(item.Content, decode)
  {
    match TagList(item)
    case Failure(e) => Failure(e)
    case Success(tags) =>
      Success(EntryBlock(item.EntryDate, item.PrimaryMood,
                         if tags == [] then None else Some(Join(", ", TagTexts(tags))),
                         StripHtml(item.Content, decode)))
  }

  /** The blocks of the entries in the given order. */
  function RenderEntries(items: seq<JournalItem>, decode: string -> string): (r: Result<seq<Block>>)
    ensures r.Success? <==> forall i | 0 <= i < |items| :: TagList(items[i]).Success?
    ensures r.Success? ==> && |r.value| == |items|
                           && forall i | 0 <= i < |items| :: RenderEntry(items[i], decode) == Success(r.value[i])
  {
    MapAll(items, (item: JournalItem) => RenderEntry(item, decode))
  }

  /** The body of the document: the placeholder alone when there are no
      entries, otherwise one block per entry, newest first. */
  function DocumentBody(entries: seq<JournalItem>, decode: string -> string): (r: Result<seq<Block>>)
    ensures entries == [] ==> r == Success([Placeholder])
    ensures entries != [] ==> r == RenderEntries(NewestFirst(entries), decode)
  {
    if entries == [] then Success([Placeholder])
    else RenderEntries(NewestFirst(entries), decode)
  }

  /** A non-empty list gives one block per entry, in newest-first order,
      and fails exactly when some entry's Tags do not read as a list. */
  lemma DocumentShowsEachEntry(entries: seq<JournalItem>, decode: string -> string)
    requires entries != []
    ensures var r := DocumentBody(entries, decode);
            r.Success? <==> forall e | e in entries :: TagList(e).Success?
    ensures var r := DocumentBody(entries, decode);
            r.Success? ==> && |r.value| == |entries|
                           && forall i | 0 <= i < |entries| :: RenderEntry(NewestFirst(entries)[i], decode) == Success(r.value[i])
  {
    var order := NewestFirst(entries);
    NewestFirstSpec(entries, MinValue);
    var render := (item: JournalItem) => RenderEntry(item, decode);
    SameElements(order, entries);
    assert (forall i | 0 <= i < |order| :: render(order[i]).Success?) <==> forall e | e in entries :: TagList(e).Success?;
  }

  lemma SameElements<T>(xs: seq<T>, ys: seq<T>)
    requires multiset(xs) == multiset(ys)
    ensures forall y | y in ys :: y in xs
    ensures forall i | 0 <= i < |xs| :: xs[i] in ys
  {
    forall y | y in ys
      ensures y in xs
    {
      assert y in multiset(xs);
    }
    forall i | 0 <= i < |xs|
      ensures xs[i] in ys
    {
      assert xs[i] in multiset(ys);
    }
  }

  lemma BeforeOrder()
    ensures IsStrictTotalOrder(Before)
  {
    forall a: DateTime, b: DateTime, c: DateTime
      ensures !Before(a, a)
      ensures Before(a, b) && Before(b, c) ==> Before(a, c)
      ensures a == b || Before(a, b) || Before(b, a)
    {
      BeforeIsStrictTotalOrder(a, b, c);
    }
  }

  /** Every entry is shown once, newest first, and entries of the same date
      keep the order they were given in. */
  lemma NewestFirstSpec(entries: seq<JournalItem>, d: DateTime)
    ensures multiset(NewestFirst(entries)) == multiset(entries)
    ensures SortedDesc(NewestFirst(entries), EntryDateOf, Before)
    ensures WithKey(NewestFirst(entries), EntryDateOf, d) == WithKey(entries, EntryDateOf, d)
  {
    BeforeOrder();
    SortDescPermutes(entries, EntryDateOf, Before);
    SortDescSorted(entries, EntryDateOf, Before);
    SortDescStable(entries, EntryDateOf, Before, d);
  }

  /** Spelled out: no shown entry is older than one shown after it. */
  lemma NewestFirstDescending(entries: seq<JournalItem>, i: nat, j: nat)
    requires i < j < |entries|
    ensures !Before(NewestFirst(entries)[i].EntryDate, NewestFirst(entries)[j].EntryDate)
  {
    NewestFirstSpec(entries, MinValue);
    assert !Before(EntryDateOf(NewestFirst(entries)[i]), EntryDateOf(NewestFirst(entries)[j]));
  }
}
