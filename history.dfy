/**
 * The history list: day keys newest first, each day's entries sorted in place
 * by time, every entry printed with its 12-hour time, all of it appended to
 * one string. The day heading (`toLocaleDateString(...).toLowerCase()` of the
 * key) depends on locale and timezone and is the function `heading`.
 */
module History {
  import opened Log
  import opened DayKeys
  import opened Sorting
  import opened Strings

  /** Entries compare by their raw time strings, as localeCompare does on
      zero-padded `HH:MM`. */
  predicate EarlierOrSame(x: Entry, y: Entry)
  {
    LexLe(x.time, y.time)
  }

  lemma EntryOrderIsTotalPreorder()
    ensures Total(EarlierOrSame) && Transitive(EarlierOrSame)
  {
    forall x: Entry, y: Entry
      ensures EarlierOrSame(x, y) || EarlierOrSame(y, x)
    {
      LexLeTotal(x.time, y.time);
    }
    forall x: Entry, y: Entry, z: Entry | EarlierOrSame(x, y) && EarlierOrSame(y, z)
      ensures EarlierOrSame(x, z)
    {
      LexLeTransitive(x.time, y.time, z.time);
    }
  }

  lemma KeyOrderIsTotalPreorder()
    ensures Total(NewerOrSame) && Transitive(NewerOrSame)
  {
  }

  /** Every entry time has a minute field. */
  ghost predicate TimesHaveMinutes(es: seq<Entry>)
  {
    forall i :: 0 <= i < |es| ==> ':' in es[i].time
  }

  const ItemOpen := "<li><strong>"
  const ItemMid := "</strong>: "
  const ItemClose := "</li>\n"
  const DayOpen := "<li><h3>"
  const DayMid := "</h3>\n<ul>\n"
  const DayClose := "</ul></li>\n"
  const ListOpen := "<ul>\n"
  const ListClose := "</ul>\n"

  /** One entry's line; `clock` prints the entry's time, and the page
      builder passes Clock.FormatTime. */
  function EntryLine(e: Entry, clock: string -> string): string
  {
    ItemOpen + clock(e.time) + ItemMid + e.message + ItemClose
  }

  /** One line per entry, in the order given. */
  function EntriesHtml(es: seq<Entry>, clock: string -> string): string
  {
    if es == [] then "" else EntriesHtml(es[..|es| - 1], clock) + EntryLine(es[|es| - 1], clock)
  }

  function DayBlock(title: string, es: seq<Entry>, clock: string -> string): string
  {
    DayOpen + title + DayMid + EntriesHtml(es, clock) + DayClose
  }

  /** Every key listed has entries. */
  ghost predicate Covers(keys: seq<string>, entries: map<string, seq<Entry>>)
  {
    forall i :: 0 <= i < |keys| ==> keys[i] in entries
  }

  /** One block per key, in the order given. */
  function DaysHtml(keys: seq<string>, entries: map<string, seq<Entry>>, heading: string -> string, clock: string -> string): string
    requires Covers(keys, entries)
  {
    if keys == [] then ""
    else
      var last := keys[|keys| - 1];
      DaysHtml(keys[..|keys| - 1], entries, heading, clock) + DayBlock(heading(last), entries[last], clock)
  }

  /** The history fragment for the days `keys`, in that order. */
  function RenderHistory(keys: seq<string>, entries: map<string, seq<Entry>>, heading: string -> string, clock: string -> string): (html: string)
    requires Covers(keys, entries)
    ensures |html| >= 11 && html[..5] == "<ul>\n" && html[|html| - 6..] == "</ul>\n"
  {
    ListOpen + DaysHtml(keys, entries, heading, clock) + ListClose
  }

  lemma RenderEmptyHistory(entries: map<string, seq<Entry>>, heading: string -> string, clock: string -> string)
    ensures RenderHistory([], entries, heading, clock) == "<ul>\n</ul>\n"
  {
  }

  /** The history of one day with one entry. */
  lemma OneEntryHistory(day: string, e: Entry, heading: string -> string, clock: string -> string)
    ensures RenderHistory([day], map[day := [e]], heading, clock)
         == ListOpen + (DayOpen + heading(day) + DayMid + EntryLine(e, clock) + DayClose) + ListClose
  {
    var entries := map[day := [e]];
    assert [day][..0] == [];
    assert [e][..0] == [];
    assert EntriesHtml([e], clock) == "" + EntryLine(e, clock) == EntryLine(e, clock);
    var block := DayBlock(heading(day), [e], clock);
    assert DaysHtml([day], entries, heading, clock) == "" + block == block;
  }

  lemma EntriesHtmlSnoc(s: seq<Entry>, e: Entry, clock: string -> string)
    ensures EntriesHtml(s + [e], clock) == EntriesHtml(s, clock) + EntryLine(e, clock)
  {
    assert (s + [e])[..|s|] == s;
  }

  /** The entry lines of two runs of entries are the lines of each, one after
      the other. */
  lemma {:induction false} EntriesHtmlConcat(a: seq<Entry>, b: seq<Entry>, clock: string -> string)
    ensures EntriesHtml(a + b, clock) == EntriesHtml(a, clock) + EntriesHtml(b, clock)
  {
    if b == [] {
      assert a + b == a;
    } else {
      var b', e := b[..|b| - 1], b[|b| - 1];
      assert b == b' + [e];
      assert a + b == (a + b') + [e];
      EntriesHtmlConcat(a, b', clock);
      EntriesHtmlSnoc(a + b', e, clock);
      EntriesHtmlSnoc(b', e, clock);
      ConcatAssoc(EntriesHtml(a, clock), EntriesHtml(b', clock), EntryLine(e, clock));
    }
  }

  /** The blocks of two runs of days are the blocks of each, one after the
      other. */
  lemma {:induction false} DaysHtmlConcat(k1: seq<string>, k2: seq<string>, entries: map<string, seq<Entry>>, heading: string -> string, clock: string -> string)
    requires Covers(k1, entries) && Covers(k2, entries)
    ensures Covers(k1 + k2, entries)
    ensures DaysHtml(k1 + k2, entries, heading, clock) == DaysHtml(k1, entries, heading, clock) + DaysHtml(k2, entries, heading, clock)
  {
    assert Covers(k1 + k2, entries) by {
      forall i | 0 <= i < |k1 + k2|
        ensures (k1 + k2)[i] in entries
      {
        if i >= |k1| { assert (k1 + k2)[i] == k2[i - |k1|]; }
      }
    }
    if k2 == [] {
      assert k1 + k2 == k1;
    } else {
      var k2' := k2[..|k2| - 1];
      var last := k2[|k2| - 1];
      assert Covers(k2', entries);
      DaysHtmlConcat(k1, k2', entries, heading, clock);
      assert (k1 + k2)[..|k1 + k2| - 1] == k1 + k2';
      assert (k1 + k2)[|k1 + k2| - 1] == last;
      ConcatAssoc(DaysHtml(k1, entries, heading, clock), DaysHtml(k2', entries, heading, clock), DayBlock(heading(last), entries[last], clock));
    }
  }

  /** The blocks depend only on the entries of the days listed. */
  lemma {:induction false} DaysHtmlAgree(keys: seq<string>, m1: map<string, seq<Entry>>, m2: map<string, seq<Entry>>, heading: string -> string, clock: string -> string)
    requires Covers(keys, m1)
    requires forall i :: 0 <= i < |keys| ==> keys[i] in m2 && m2[keys[i]] == m1[keys[i]]
    ensures Covers(keys, m2)
    ensures DaysHtml(keys, m1, heading, clock) == DaysHtml(keys, m2, heading, clock)
  {
    if keys != [] {
      DaysHtmlAgree(keys[..|keys| - 1], m1, m2, heading, clock);
    }
  }

  /** No entry message holds `$`. */
  ghost predicate PlainMessages(entries: map<string, seq<Entry>>)
  {
    forall k, i :: k in entries && 0 <= i < |entries[k]| ==> '$' !in entries[k][i].message
  }

  lemma MarkupIsPlain()
    ensures '$' !in ItemOpen && '$' !in ItemMid && '$' !in ItemClose
    ensures '$' !in DayOpen && '$' !in DayMid && '$' !in DayClose
    ensures '$' !in ListOpen && '$' !in ListClose
  {
  }

  /** Entry lines hold a `$` only where a message or a printed time does. */
  lemma {:induction false} EntriesHtmlIsPlain(es: seq<Entry>, clock: string -> string)
    requires forall i :: 0 <= i < |es| ==> '$' !in es[i].message
    requires forall t :: '$' !in clock(t)
    ensures '$' !in EntriesHtml(es, clock)
  {
    if es != [] {
      EntriesHtmlIsPlain(es[..|es| - 1], clock);
      MarkupIsPlain();
      assert '$' !in clock(es[|es| - 1].time);
    }
  }

  /** Day blocks hold a `$` only where a heading, a message or a printed
      time does. */
  lemma {:induction false} DaysHtmlIsPlain(keys: seq<string>, entries: map<string, seq<Entry>>, heading: string -> string, clock: string -> string)
    requires Covers(keys, entries) && PlainMessages(entries)
    requires forall i :: 0 <= i < |keys| ==> '$' !in heading(keys[i])
    requires forall t :: '$' !in clock(t)
    ensures '$' !in DaysHtml(keys, entries, heading, clock)
  {
    if keys != [] {
      var last := keys[|keys| - 1];
      DaysHtmlIsPlain(keys[..|keys| - 1], entries, heading, clock);
      EntriesHtmlIsPlain(entries[last], clock);
      MarkupIsPlain();
    }
  }

  /** The history holds no `$` when no heading and no entry message does,
      and the clock prints none. */
  lemma RenderHistoryIsPlain(keys: seq<string>, entries: map<string, seq<Entry>>, heading: string -> string, clock: string -> string)
    requires Covers(keys, entries) && PlainMessages(entries)
    requires forall i :: 0 <= i < |keys| ==> '$' !in heading(keys[i])
    requires forall t :: '$' !in clock(t)
    ensures '$' !in RenderHistory(keys, entries, heading, clock)
  {
    DaysHtmlIsPlain(keys, entries, heading, clock);
    MarkupIsPlain();
  }

  /** Collects the keys of `days` and sorts them newest first
      (`Object.keys(days).sort(...)`). */
  method SortedDayKeys(days: Days) returns (order: seq<string>)
    ensures Distinct(order)
    ensures forall k :: k in order <==> k in days
    ensures SortedBy(order, NewerOrSame)
  {
    var keys: seq<string> := [];
    var rest := days.Keys;
    while rest != {}
      invariant rest <= days.Keys
      invariant forall k :: k in keys <==> k in days && k !in rest
      invariant Distinct(keys)
      decreases |rest|
    {
      var k :| k in rest;
      keys := keys + [k];
      rest := rest - {k};
    }
    var a := new string[|keys|](i requires 0 <= i < |keys| => keys[i]);
    assert a[..] == keys;
    KeyOrderIsTotalPreorder();
    SortBy(a, NewerOrSame);
    order := a[..];
    DistinctPermutation(keys, order);
    forall k
      ensures k in order <==> k in keys
    {
      assert k in order <==> k in multiset(order);
      assert k in keys <==> k in multiset(keys);
    }
  }

  /** The inner loop: appends one line per entry, in array order. */
  method AppendEntries(html: string, entries: array<Entry>, clock: string -> string) returns (out: string)
    ensures out == html + EntriesHtml(entries[..], clock)
  {
    out := html;
    var j := 0;
    while j < entries.Length
      invariant 0 <= j <= entries.Length
      invariant out == html + EntriesHtml(entries[..j], clock)
    {
      assert entries[..j + 1][..j] == entries[..j];
      ConcatAssoc(html, EntriesHtml(entries[..j], clock), EntryLine(entries[j], clock));
      out := out + EntryLine(entries[j], clock);
      j := j + 1;
    }
    assert entries[..j] == entries[..];
  }

  /** The body of the outer loop for one day: appends the day's heading,
      sorts its entries in place by time and appends one line per entry. */
  method AppendDay(html: string, title: string, entries: array<Entry>, clock: string -> string) returns (out: string)
    modifies entries
    ensures SortedBy(entries[..], EarlierOrSame)
    ensures multiset(entries[..]) == multiset(old(entries[..]))
    ensures out == html + DayBlock(title, entries[..], clock)
  {
    var open := DayOpen + title + DayMid;
    EntryOrderIsTotalPreorder();
    SortBy(entries, EarlierOrSame);
    out := AppendEntries(html + open, entries, clock);
    out := out + DayClose;
    BlockAssoc(html, open, EntriesHtml(entries[..], clock), DayClose);
  }

  lemma BlockAssoc(a: string, b: string, c: string, d: string)
    ensures ((a + b) + c) + d == a + ((b + c) + d)
  {
  }

  /** Rendering one more day extends the fragment rendered so far by that
      day's block. */
  lemma ExtendRendering(keys: seq<string>, i: nat, done: map<string, seq<Entry>>, es: seq<Entry>, heading: string -> string, clock: string -> string)
    requires i < |keys| && keys[i] !in done
    requires Covers(keys[..i], done)
    ensures Covers(keys[..i + 1], done[keys[i] := es])
    ensures ListOpen + DaysHtml(keys[..i + 1], done[keys[i] := es], heading, clock)
         == (ListOpen + DaysHtml(keys[..i], done, heading, clock)) + DayBlock(heading(keys[i]), es, clock)
  {
    var done' := done[keys[i] := es];
    DaysHtmlAgree(keys[..i], done, done', heading, clock);
    assert keys[..i + 1][..i] == keys[..i];
    ConcatAssoc(ListOpen, DaysHtml(keys[..i], done, heading, clock), DayBlock(heading(keys[i]), es, clock));
  }

  lemma TakeOneMore(keys: seq<string>, i: nat)
    requires i < |keys|
    ensures forall k :: k in keys[..i + 1] <==> k in keys[..i] || k == keys[i]
  {
    assert keys[..i + 1] == keys[..i] + [keys[i]];
  }

  /** One pass of the outer loop: appends the block of `day`, sorting that
      day's entries in place and leaving every other day's as they were.
      `done` holds the entries of the days rendered so far, as they were
      rendered. */
  method RenderNextDay(days: Days, day: string, html: string, ghost done: map<string, seq<Entry>>,
                       heading: string -> string, clock: string -> string)
    returns (out: string, ghost done': map<string, seq<Entry>>)
    requires SeparateArrays(days) && day in days && day !in done
    requires forall k :: k in done ==> k in days && done[k] == days[k][..] && SortedBy(done[k], EarlierOrSame)
    modifies days[day]
    ensures forall k :: k in days ==> multiset(days[k][..]) == multiset(old(days[k][..]))
    ensures forall k :: k in done' ==> k in days && done'[k] == days[k][..] && SortedBy(done'[k], EarlierOrSame)
    ensures done' == done[day := days[day][..]]
    ensures out == html + DayBlock(heading(day), days[day][..], clock)
  {
    var entries := days[day];
    out := AppendDay(html, heading(day), entries, clock);
    forall k | k in days
      ensures multiset(days[k][..]) == multiset(old(days[k][..]))
    {
      if k != day {
        assert days[k][..] == old(days[k][..]);
      }
    }
    done' := done[day := entries[..]];
    forall k | k in done'
      ensures k in days && done'[k] == days[k][..] && SortedBy(done'[k], EarlierOrSame)
    {
      if k != day {
        assert days[k][..] == old(days[k][..]);
      }
    }
  }

  /** The outer loop: renders the days `keys` in that order, sorting each
      day's entries in place. */
  method RenderDays(days: Days, keys: seq<string>, heading: string -> string, clock: string -> string) returns (html: string)
    requires SeparateArrays(days)
    requires Distinct(keys) && forall k :: k in keys <==> k in days
    modifies set k | k in days :: days[k]
    ensures forall k :: k in days ==>
      SortedBy(days[k][..], EarlierOrSame) && multiset(days[k][..]) == multiset(old(days[k][..]))
    ensures Covers(keys, Snapshot(days))
    ensures html == RenderHistory(keys, Snapshot(days), heading, clock)
  {
    ghost var done: map<string, seq<Entry>> := map[];
    html := ListOpen;
    var i := 0;
    while i < |keys|
      invariant 0 <= i <= |keys|
      invariant forall k :: k in days ==> multiset(days[k][..]) == multiset(old(days[k][..]))
      invariant forall k :: k in done ==> k in keys[..i]
      invariant forall k :: k in done ==> k in days && done[k] == days[k][..] && SortedBy(done[k], EarlierOrSame)
      invariant Covers(keys[..i], done)
      invariant html == ListOpen + DaysHtml(keys[..i], done, heading, clock)
    {
      var day := keys[i];
      assert day !in keys[..i];
      ghost var before := done;
      html, done := RenderNextDay(days, day, html, done, heading, clock);
      ExtendRendering(keys, i, before, days[day][..], heading, clock);
      TakeOneMore(keys, i);
      i := i + 1;
    }
    assert keys[..i] == keys;
    DaysHtmlAgree(keys, done, Snapshot(days), heading, clock);
    ConcatAssoc(ListOpen, DaysHtml(keys, done, heading, clock), ListClose);
    html := html + ListClose;
  }

  /** Renders the whole history: the days newest first, each day's entries
      sorted in place by time. */
  method AssembleHistory(days: Days, heading: string -> string, clock: string -> string) returns (html: string, ghost order: seq<string>)
    requires SeparateArrays(days)
    requires forall k :: k in days ==> TimesHaveMinutes(days[k][..])
    modifies set k | k in days :: days[k]
    ensures Distinct(order) && (forall k :: k in order <==> k in days) && SortedBy(order, NewerOrSame)
    ensures forall k :: k in days ==>
      SortedBy(days[k][..], EarlierOrSame) && multiset(days[k][..]) == multiset(old(days[k][..]))
    ensures Covers(order, Snapshot(days))
    ensures html == RenderHistory(order, Snapshot(days), heading, clock)
  {
    var sortedDays := SortedDayKeys(days);
    html := RenderDays(days, sortedDays, heading, clock);
    order := sortedDays;
  }
}
