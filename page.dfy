/**
 * The page: the template with its three placeholders filled in, in the
 * order message, history, version, each by a replace of the first
 * occurrence.
 */
module Page {
  import opened Strings
  import opened Log
  import opened Message
  import opened History
  import opened Clock
  import opened Sorting
  import opened DayKeys

  const MessageSlot := "{{ message }}"
  const HistorySlot := "{{ history }}"
  const VersionSlot := "{{ version }}"

  /** The three replacements with each text inserted literally. */
  function Substitute(template: string, message: string, history: string, version: string): string
  {
    ReplaceFirst(ReplaceFirst(ReplaceFirst(template, MessageSlot, message), HistorySlot, history), VersionSlot, version)
  }

  /** The three replacements as JavaScript performs them: `$` patterns in
      the inserted text are expanded. */
  function SubstituteAsWritten(template: string, message: string, history: string, version: string): string
  {
    ReplaceFirstJs(ReplaceFirstJs(ReplaceFirstJs(template, MessageSlot, message), HistorySlot, history), VersionSlot, version)
  }

  /** No placeholder overlaps itself. */
  lemma SlotsUnbordered()
    ensures Unbordered(MessageSlot) && Unbordered(HistorySlot) && Unbordered(VersionSlot)
  {
    BracedUnbordered(MessageSlot);
    BracedUnbordered(HistorySlot);
    BracedUnbordered(VersionSlot);
  }

  /** The first of the three replacements. */
  lemma ReplaceFirstSlot(a: string, b: string, c: string, d: string, p1: string, p2: string, p3: string, r1: string)
    requires Unbordered(p1) && !Contains(a, p1)
    ensures ReplaceFirst(a + p1 + b + p2 + c + p3 + d, p1, r1) == a + r1 + b + p2 + c + p3 + d
  {
    var rest := b + p2 + c + p3 + d;
    assert a + p1 + b + p2 + c + p3 + d == a + p1 + rest;
    ReplaceFirstAfterFree(a, p1, rest, r1);
    assert a + r1 + rest == a + r1 + b + p2 + c + p3 + d;
  }

  /** The second of the three replacements. */
  lemma ReplaceSecondSlot(a: string, b: string, c: string, d: string, p2: string, p3: string, r1: string, r2: string)
    requires Unbordered(p2) && !Contains(a + r1 + b, p2)
    ensures ReplaceFirst(a + r1 + b + p2 + c + p3 + d, p2, r2) == a + r1 + b + r2 + c + p3 + d
  {
    var rest := c + p3 + d;
    assert a + r1 + b + p2 + c + p3 + d == (a + r1 + b) + p2 + rest;
    ReplaceFirstAfterFree(a + r1 + b, p2, rest, r2);
    assert (a + r1 + b) + r2 + rest == a + r1 + b + r2 + c + p3 + d;
  }

  /** The third of the three replacements. */
  lemma ReplaceThirdSlot(a: string, b: string, c: string, d: string, p3: string, r1: string, r2: string, r3: string)
    requires Unbordered(p3) && !Contains(a + r1 + b + r2 + c, p3)
    ensures ReplaceFirst(a + r1 + b + r2 + c + p3 + d, p3, r3) == a + r1 + b + r2 + c + r3 + d
  {
    ReplaceFirstAfterFree(a + r1 + b + r2 + c, p3, d, r3);
  }

  /** Three first-occurrence replacements of self-disjoint patterns, each
      found where it was put. */
  lemma ReplaceThreeInPlace(a: string, b: string, c: string, d: string, p1: string, p2: string, p3: string, r1: string, r2: string, r3: string)
    requires Unbordered(p1) && Unbordered(p2) && Unbordered(p3)
    requires !Contains(a, p1)
    requires !Contains(a + r1 + b, p2)
    requires !Contains(a + r1 + b + r2 + c, p3)
    ensures ReplaceFirst(ReplaceFirst(ReplaceFirst(a + p1 + b + p2 + c + p3 + d, p1, r1), p2, r2), p3, r3)
         == a + r1 + b + r2 + c + r3 + d
  {
    ReplaceFirstSlot(a, b, c, d, p1, p2, p3, r1);
    ReplaceSecondSlot(a, b, c, d, p2, p3, r1, r2);
    ReplaceThirdSlot(a, b, c, d, p3, r1, r2, r3);
  }

  /** A template holding each placeholder once, in order, gets the three
      texts in their places, provided no placeholder turns up earlier: in the
      template before its slot, or in a text inserted before it. */
  lemma SubstituteInPlace(a: string, b: string, c: string, d: string, message: string, history: string, version: string)
    requires !Contains(a, MessageSlot)
    requires !Contains(a + message + b, HistorySlot)
    requires !Contains(a + message + b + history + c, VersionSlot)
    ensures Substitute(a + MessageSlot + b + HistorySlot + c + VersionSlot + d, message, history, version)
         == a + message + b + history + c + version + d
  {
    SlotsUnbordered();
    ReplaceThreeInPlace(a, b, c, d, MessageSlot, HistorySlot, VersionSlot, message, history, version);
  }

  /** A template without placeholders is left as it is. */
  lemma SubstituteWithoutSlots(template: string, message: string, history: string, version: string)
    requires !Contains(template, MessageSlot) && !Contains(template, HistorySlot) && !Contains(template, VersionSlot)
    ensures Substitute(template, message, history, version) == template
    ensures SubstituteAsWritten(template, message, history, version) == template
  {
  }

  /** The replace chain as written agrees with literal insertion whenever
      the history and the version hold no `$`; the message never does. */
  lemma AsWrittenWithoutDollar(template: string, count: nat, weekend: bool, history: string, version: string)
    requires '$' !in history && '$' !in version
    ensures SubstituteAsWritten(template, SelectMessage(count, weekend), history, version)
         == Substitute(template, SelectMessage(count, weekend), history, version)
  {
    var message := SelectMessage(count, weekend);
    MessageIsPlain(count, weekend);
    ReplaceFirstJsWithoutDollar(template, MessageSlot, message);
    var t1 := ReplaceFirst(template, MessageSlot, message);
    ReplaceFirstJsWithoutDollar(t1, HistorySlot, history);
    var t2 := ReplaceFirst(t1, HistorySlot, history);
    ReplaceFirstJsWithoutDollar(t2, VersionSlot, version);
  }

  /** A history holding `$&` (an entry message such as "paid $& more")
      gets the placeholder itself into the page where the `$&` was, while
      literal insertion keeps the text. */
  lemma DollarInHistoryIsExpanded(a: string, b: string, h1: string, h2: string)
    requires !Contains(a, HistorySlot) && '$' !in h1 && '$' !in h2
    ensures ReplaceFirstJs(a + HistorySlot + b, HistorySlot, h1 + "$&" + h2) == a + (h1 + HistorySlot + h2) + b
    ensures ReplaceFirst(a + HistorySlot + b, HistorySlot, h1 + "$&" + h2) == a + (h1 + "$&" + h2) + b
  {
    SlotsUnbordered();
    ReplaceFirstJsMatched(a, HistorySlot, b, h1, h2);
  }

  /** The history placeholder holds neither of the other two. */
  lemma HistorySlotHoldsNoOtherSlot()
    ensures !Contains(HistorySlot, MessageSlot) && !Contains(HistorySlot, VersionSlot)
  {
    assert HistorySlot[3] != MessageSlot[3] && HistorySlot[3] != VersionSlot[3];
    NotContainsSameLength(HistorySlot, MessageSlot);
    NotContainsSameLength(HistorySlot, VersionSlot);
  }

  /** The history placeholder replaced by `$&`, both ways. */
  lemma DollarForHistorySlot()
    ensures ReplaceFirstJs(HistorySlot, HistorySlot, "$&") == HistorySlot
    ensures ReplaceFirst(HistorySlot, HistorySlot, "$&") == "$&"
  {
    DollarInHistoryIsExpanded("", "", "", "");
    assert "" + HistorySlot + "" == HistorySlot;
    assert "" + ("" + "$&" + "") + "" == "$&";
    assert "" + ("" + HistorySlot + "") + "" == HistorySlot;
  }

  /** The page of a template that is just the history placeholder, for a
      history reading `$&`: as written it shows the placeholder. */
  lemma DollarHistoryPage()
    ensures SubstituteAsWritten(HistorySlot, "", "$&", "") == HistorySlot
    ensures Substitute(HistorySlot, "", "$&", "") == "$&"
  {
    HistorySlotHoldsNoOtherSlot();
    DollarForHistorySlot();
    NotContainsWithoutFirstChar("$&", VersionSlot);
  }

  /** A log of one day with one entry whose message is `$&`: its history
      is the markup around that message. */
  lemma OneDollarEntryHistory(day: string, time: string, heading: string -> string)
    ensures RenderHistory([day], map[day := [Entry(time, "$&")]], heading, FormatTime)
         == (ListOpen + DayOpen + heading(day) + DayMid + ItemOpen + FormatTime(time) + ItemMid) + "$&"
            + (ItemClose + DayClose + ListClose)
  {
    var e := Entry(time, "$&");
    OneEntryHistory(day, e, heading, FormatTime);
    Regroup(ListOpen, DayOpen, heading(day), DayMid, ItemOpen, FormatTime(time), ItemMid, "$&", ItemClose, DayClose, ListClose);
  }

  /** Regrouping the eleven pieces of a one-entry history around its message. */
  lemma Regroup(l1: string, d1: string, h: string, d2: string, i1: string, c: string, i2: string, m: string, i3: string, d3: string, l2: string)
    ensures l1 + (d1 + h + d2 + (i1 + c + i2 + m + i3) + d3) + l2
         == (l1 + d1 + h + d2 + i1 + c + i2) + m + (i3 + d3 + l2)
  {
  }

  /** Put into a template, the history of that log shows the history
      placeholder itself where the message was, as JavaScript's replace
      expands `$&`; literal insertion shows `$&`. */
  lemma DollarEntryShowsPlaceholder(a: string, b: string, day: string, time: string, heading: string -> string)
    requires !Contains(a, HistorySlot) && '$' !in heading(day)
    ensures var history := RenderHistory([day], map[day := [Entry(time, "$&")]], heading, FormatTime);
      var pre := ListOpen + DayOpen + heading(day) + DayMid + ItemOpen + FormatTime(time) + ItemMid;
      var post := ItemClose + DayClose + ListClose;
      ReplaceFirstJs(a + HistorySlot + b, HistorySlot, history) == a + (pre + HistorySlot + post) + b &&
      ReplaceFirst(a + HistorySlot + b, HistorySlot, history) == a + history + b
  {
    var pre := ListOpen + DayOpen + heading(day) + DayMid + ItemOpen + FormatTime(time) + ItemMid;
    var post := ItemClose + DayClose + ListClose;
    OneDollarEntryHistory(day, time, heading);
    MarkupIsPlain();
    FormatTimeIsPlain();
    assert '$' !in pre && '$' !in post;
    DollarInHistoryIsExpanded(a, b, pre, post);
  }

  /** Builds the page: today's message, the history (sorting each day's
      entries in place), the version and the favicon it selects, and the
      template filled in with them by JavaScript's replace. When no heading
      and no entry message holds a `$`, that page is the one literal
      insertion gives. */
  method BuildPage(template: string, days: Days, currentDay: string, dayOfWeek: string, heading: string -> string)
    returns (output: string, version: string, favicon: string, ghost order: seq<string>)
    requires SeparateArrays(days)
    requires forall k :: k in days ==> TimesHaveMinutes(days[k][..])
    modifies set k | k in days :: days[k]
    ensures version == DetermineVersion(DetermineMessage(days, currentDay, dayOfWeek))
    ensures version == (if currentDay in days && days[currentDay].Length >= 1 then "y" else "n")
    ensures favicon == FaviconAsset(version)
    ensures Distinct(order) && (forall k :: k in order <==> k in days) && SortedBy(order, NewerOrSame)
    ensures forall k :: k in days ==>
      SortedBy(days[k][..], EarlierOrSame) && multiset(days[k][..]) == multiset(old(days[k][..]))
    ensures Covers(order, Snapshot(days))
    ensures output == SubstituteAsWritten(template, DetermineMessage(days, currentDay, dayOfWeek),
                                          RenderHistory(order, Snapshot(days), heading, FormatTime), version)
    ensures PlainMessages(Snapshot(days)) && (forall k :: k in days ==> '$' !in heading(k)) ==>
      output == Substitute(template, DetermineMessage(days, currentDay, dayOfWeek),
                           RenderHistory(order, Snapshot(days), heading, FormatTime), version)
  {
    var message := DetermineMessage(days, currentDay, dayOfWeek);
    var history;
    history, order := AssembleHistory(days, heading, FormatTime);
    version := DetermineVersion(message);
    VersionReportsEntries(days, currentDay, dayOfWeek);
    favicon := FaviconAsset(version);
    output := SubstituteAsWritten(template, message, history, version);
    if PlainMessages(Snapshot(days)) && (forall k :: k in days ==> '$' !in heading(k)) {
      PlainPage(template, days, currentDay, dayOfWeek, order, heading);
    }
  }

  /** Without `$` in the headings and the messages, the page as written is
      the page with every text inserted literally. */
  lemma PlainPage(template: string, days: Days, currentDay: string, dayOfWeek: string, order: seq<string>, heading: string -> string)
    requires Covers(order, Snapshot(days)) && PlainMessages(Snapshot(days))
    requires forall k :: k in days ==> '$' !in heading(k)
    ensures var message := DetermineMessage(days, currentDay, dayOfWeek);
      var history := RenderHistory(order, Snapshot(days), heading, FormatTime);
      var version := DetermineVersion(message);
      SubstituteAsWritten(template, message, history, version) == Substitute(template, message, history, version)
  {
    var entries := Snapshot(days);
    assert forall i :: 0 <= i < |order| ==> '$' !in heading(order[i]) by {
      forall i | 0 <= i < |order|
        ensures '$' !in heading(order[i])
      {
        assert order[i] in entries;
      }
    }
    FormatTimeIsPlain();
    RenderHistoryIsPlain(order, entries, heading, FormatTime);
    var message := DetermineMessage(days, currentDay, dayOfWeek);
    var version := DetermineVersion(message);
    assert '$' !in version;
    AsWrittenWithoutDollar(template, EntryCount(days, currentDay), IsWeekend(dayOfWeek),
                           RenderHistory(order, entries, heading, FormatTime), version);
  }
}
