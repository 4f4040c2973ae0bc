/** Worked examples: the recorder and the sweep on concrete inputs. */
module Scenarios {
  import opened Wrappers
  import opened Utf16
  import opened History
  import StatusPath
  import TitleGrammar
  import Background
  import Cleanup

  const Space: Unit := 0x20
  const AliceName: Str := Lift("Alice")
  const HelloText: Str := Lift("Hello world")
  /** `Alice on X: "Hello world"` */
  const AliceTitle: Str :=
    AliceName + [Space] + TitleGrammar.On + [Space] + TitleGrammar.XColon + [Space, TitleGrammar.Quote]
    + HelloText + [TitleGrammar.Quote]
  const AlicePath: Str := Lift("/alice/status/42")
  const AliceUrl: Str := Lift("https://x.com/alice/status/42")
  /** `random unrelated text`, split at its only 'o'. */
  const PlainTitle: Str := Lift("rand") + Lift("o") + Lift("m unrelated text")

  lemma AlicePathId()
    ensures StatusPath.ExtractTweetId(AlicePath) == Some(Lift("42"))
  {
    var p := AlicePath;
    assert p[6 .. 14] == StatusPath.StatusSep;
    assert StatusPath.SegmentEnd(p, 1) == 6;
    assert StatusPath.DigitRunEnd(p, 14) == 16;
    assert p[14 .. 16] == Lift("42");
    assert StatusPath.MatchAt(p, 0) == Some(Lift("42"));
  }

  /** A literal none of whose characters is `bad` lifts to units none of
      which is `bad`. */
  lemma LiftAvoids(s: string, bad: Unit -> bool)
    requires forall c :: c in s ==> !bad(UnitOf(c))
    ensures forall i :: 0 <= i < |Lift(s)| ==> !bad(Lift(s)[i])
  {
    forall i | 0 <= i < |Lift(s)|
      ensures !bad(Lift(s)[i])
    {
      assert s[i] in s;
    }
  }

  lemma AliceTitleLayout()
    ensures |AliceTitle| == 25
    ensures AliceTitle[.. 5] == AliceName && AliceTitle[13 .. 24] == HelloText
    ensures AliceTitle[5] == Space && AliceTitle[8] == Space && AliceTitle[11] == Space
    ensures AliceTitle[6 .. 8] == TitleGrammar.On && AliceTitle[9 .. 11] == TitleGrammar.XColon
    ensures AliceTitle[12] == TitleGrammar.Quote && AliceTitle[24] == TitleGrammar.Quote
  {
  }

  lemma AliceTitleUnits()
    ensures forall i :: 0 <= i < 5 ==> !IsSpace(AliceTitle[i]) && !IsLineTerminator(AliceTitle[i])
    ensures forall i :: 13 <= i < 24 ==> AliceTitle[i] != TitleGrammar.Quote && !IsLineTerminator(AliceTitle[i])
  {
    AliceTitleLayout();
    LiftAvoids("Alice", u => IsSpace(u));
    LiftAvoids("Alice", u => IsLineTerminator(u));
    LiftAvoids("Hello world", u => u == TitleGrammar.Quote);
    LiftAvoids("Hello world", u => IsLineTerminator(u));
    forall i | 13 <= i < 24
      ensures AliceTitle[i] == HelloText[i - 13]
    {
    }
  }

  /** The lazy groups give author "Alice" and content "Hello world". */
  lemma AliceTitleParts()
    ensures TitleGrammar.ParseTitle(AliceTitle) == Some(TitleGrammar.TitleParts(AliceName, HelloText))
  {
    var t := AliceTitle;
    AliceTitleLayout();
    AliceTitleUnits();
    assert TitleGrammar.MatchesAt(t, 5, 6, 9, 12, 24);
    TitleGrammar.ParseTitleCompleteAndLazy(t, 5, 6, 9, 12, 24);
    TitleGrammar.OpenQuoteAtComplete(t, 5, 6, 9, 12, 24);
    var m := TitleGrammar.ParseTitle(t).value;
    assert TitleGrammar.TailMatches(t, |m.author|);
    assert |m.author| == 5;
  }

  /** A first visit to the page of tweet 42 stores one record and announces it. */
  lemma AliceVisitIsRecorded(now: int)
    ensures var rec := TweetRecord(Lift("42"), AliceUrl, now, Some(AliceName), Some(HelloText));
            Background.CheckAndRecordTweet(
              AliceUrl, Some(Background.ParsedUrl(StatusPath.XHost, AlicePath)), Some(AliceTitle), now, None)
            == Background.Inserted([rec], TweetHistoryUpdated(rec))
  {
    AlicePathId();
    AliceTitleParts();
    var rec := TweetRecord(Lift("42"), AliceUrl, now, Some(AliceName), Some(HelloText));
    assert OrEmpty(Some(AliceTitle)) == AliceTitle;
    assert Background.Summarize(HelloText) == HelloText;
    assert OrEmpty<TweetRecord>(None) == [];
    assert !HasId([], rec.tweetId);
    var h := Background.InsertIfAbsent([], rec).value;
    assert h == [rec];
  }

  lemma PlainTitleHasNoOn()
    ensures forall i :: 0 <= i < |PlainTitle| - 1 && PlainTitle[i] == UnitOf('o') ==> PlainTitle[i + 1] != UnitOf('n')
  {
    var o := UnitOf('o');
    var t := PlainTitle;
    LiftAvoids("rand", u => u == o);
    LiftAvoids("m unrelated text", u => u == o);
    forall i | 0 <= i < 4
      ensures t[i] != o
    {
      assert t[i] == Lift("rand")[i];
    }
    forall i | 5 <= i < |t|
      ensures t[i] != o
    {
      assert t[i] == Lift("m unrelated text")[i - 5];
    }
    assert t[5] == UnitOf('m');
  }

  /** A title without "on" never matches the grammar. */
  lemma TitleWithoutOnUnparsed(t: Str)
    requires forall i :: 0 <= i < |t| - 1 && t[i] == UnitOf('o') ==> t[i + 1] != UnitOf('n')
    ensures TitleGrammar.ParseTitle(t).None?
  {
    assert TitleGrammar.On[0] == UnitOf('o') && TitleGrammar.On[1] == UnitOf('n');
    if TitleGrammar.ParseTitle(t).Some? {
      TitleGrammar.ParseTitleSound(t);
      assert false;
    }
  }

  /** A title outside the grammar stores nothing, even on a tweet page. */
  lemma PlainTitleIsSkipped(now: int, stored: Option<seq<TweetRecord>>)
    ensures Background.CheckAndRecordTweet(
              AliceUrl, Some(Background.ParsedUrl(StatusPath.XHost, AlicePath)), Some(PlainTitle), now, stored)
            == Background.Unchanged
  {
    PlainTitleHasNoOn();
    TitleWithoutOnUnparsed(PlainTitle);
  }

  /** With a one-week period on day 10, a record from day 1 is removed and a
      record from day 9 is kept. */
  lemma WeekSweep(stale: TweetRecord, recent: TweetRecord)
    requires stale.timestamp == 1 * Cleanup.DayMillis && recent.timestamp == 9 * Cleanup.DayMillis
    ensures Cleanup.CleanupHistory(Some(Cleanup.CleanupConfig(Cleanup.OneWeek)), 10 * Cleanup.DayMillis, Some([stale, recent]))
            == Cleanup.Removed([recent])
  {
    var now := 10 * Cleanup.DayMillis;
    var cutoff := Cleanup.Cutoff(Cleanup.OneWeek, now);
    var history := [stale, recent];
    assert cutoff == 3 * Cleanup.DayMillis;
    assert !Cleanup.Fresh(history[0], cutoff);
    var r := Cleanup.CleanupHistory(Some(Cleanup.CleanupConfig(Cleanup.OneWeek)), now, Some(history));
    assert recent in history && Cleanup.Fresh(recent, cutoff);
    assert multiset(r.kept)[recent] >= 1;
    assert recent in r.kept;
    assert |r.kept| == 1;
    assert r.kept[0] == recent;
  }
}
