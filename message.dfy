/**
 * Today's status line and the favicon version derived from it. Today's key
 * and today's weekday name are formatted by Intl in the log's timezone; here
 * they are inputs.
 */
module Message {
  import opened Log
  import opened Decimal
  import opened Strings

  /** The number of entries logged under `currentDay`; an absent day has none. */
  function EntryCount(days: Days, currentDay: string): nat
  {
    if currentDay in days then days[currentDay].Length else 0
  }

  predicate IsWeekend(dayOfWeek: string)
  {
    dayOfWeek == "Saturday" || dayOfWeek == "Sunday"
  }

  /** The four answers, checked in priority order. */
  function SelectMessage(count: nat, weekend: bool): string
  {
    if count > 1 then "yes, multiple (" + NatToString(count) + ")"
    else if count == 1 then "yes"
    else if weekend then "no, it's the weekend"
    else "no"
  }

  const Multiple := "yes, multiple ("

  function DetermineMessage(days: Days, currentDay: string, dayOfWeek: string): (r: string)
    ensures currentDay in days && days[currentDay].Length > 1 ==>
      r == Multiple + NatToString(days[currentDay].Length) + ")"
    ensures currentDay in days && days[currentDay].Length == 1 ==> r == "yes"
    ensures (currentDay !in days || days[currentDay].Length == 0) ==>
      r == if dayOfWeek == "Saturday" || dayOfWeek == "Sunday" then "no, it's the weekend" else "no"
  {
    SelectMessage(EntryCount(days, currentDay), IsWeekend(dayOfWeek))
  }

  /** "y" exactly when the message contains "yes". */
  function DetermineVersion(message: string): (v: string)
    ensures v == "y" || v == "n"
    ensures v == "y" <==> exists j :: 0 <= j && MatchAt(message, "yes", j)
  {
    ContainsIff(message, "yes");
    if Contains(message, "yes") then "y" else "n"
  }

  /** The favicon copied into the output for a version. */
  function FaviconAsset(version: string): string
  {
    if version == "y" then "./assets/favicons/yes.svg" else "./assets/favicons/no.svg"
  }

  /** The version, and so the favicon, says "yes" exactly when today has at
      least one entry. */
  lemma VersionReportsEntries(days: Days, currentDay: string, dayOfWeek: string)
    ensures DetermineVersion(DetermineMessage(days, currentDay, dayOfWeek)) == "y"
        <==> currentDay in days && days[currentDay].Length >= 1
    ensures FaviconAsset(DetermineVersion(DetermineMessage(days, currentDay, dayOfWeek)))
         == if currentDay in days && days[currentDay].Length >= 1
            then "./assets/favicons/yes.svg" else "./assets/favicons/no.svg"
  {
    var n := EntryCount(days, currentDay);
    var r := DetermineMessage(days, currentDay, dayOfWeek);
    if n >= 1 {
      assert r[0..3] == "yes";
      assert MatchAt(r, "yes", 0);
    } else {
      assert 'y' !in r;
      NotContainsWithoutFirstChar(r, "yes");
      ContainsIff(r, "yes");
    }
  }

  /** The message tells the count apart exactly, and the weekend only when
      there is no entry. */
  lemma MessageIdentifiesOutcome(n1: nat, w1: bool, n2: nat, w2: bool)
    ensures SelectMessage(n1, w1) == SelectMessage(n2, w2) <==> n1 == n2 && (n1 > 0 || w1 == w2)
  {
    var s1, s2 := SelectMessage(n1, w1), SelectMessage(n2, w2);
    if n1 > 1 {
      assert |s1| >= 17 && s1[0] == 'y';
    }
    if n2 > 1 {
      assert |s2| >= 17 && s2[0] == 'y';
    }
    if n1 > 1 && n2 > 1 {
      assert s1[|Multiple|..|s1| - 1] == NatToString(n1);
      assert s2[|Multiple|..|s2| - 1] == NatToString(n2);
      if s1 == s2 {
        NatToStringInjective(n1, n2);
      }
    }
  }

  /** The message carries neither a `$` nor a `{`: it cannot trigger a
      replacement pattern or form a placeholder. */
  lemma MessageIsPlain(n: nat, w: bool)
    ensures '$' !in SelectMessage(n, w) && '{' !in SelectMessage(n, w)
  {
    if n > 1 {
      MultipleIsPlain(NatToString(n));
    } else {
      FixedMessagesArePlain();
    }
  }

  /** The count's digits between the fixed words bring no `$` or `{`. */
  lemma MultipleIsPlain(digits: string)
    requires IsDigits(digits)
    ensures '$' !in Multiple + digits + ")" && '{' !in Multiple + digits + ")"
  {
    assert '$' !in digits && '{' !in digits;
    assert '$' !in Multiple && '{' !in Multiple;
  }

  lemma FixedMessagesArePlain()
    ensures '$' !in "yes" && '{' !in "yes"
    ensures '$' !in "no" && '{' !in "no"
    ensures '$' !in "no, it's the weekend" && '{' !in "no, it's the weekend"
  {
  }
}
