/** Concrete runs of the saved-replies picker on a three-reply list. */
module SavedRepliesExamples {
  import opened Maybe
  import opened JsString
  import opened SavedReplies

  const Thanks := SavedReply("Thanks", "Thanks!")
  const ShipIt := SavedReply("Ship it", "Looks good")
  const Wip := SavedReply("WIP", "Work in progress")
  const Replies: seq<SavedReply> := [Thanks, ShipIt, Wip]

  /** A lower-case word without a 't' followed by an 'h' does not include "th". */
  lemma {:induction false} NotIncludesTh(s: string)
    requires forall i :: 0 <= i < |s| - 1 ==> !(s[i] == 't' && s[i + 1] == 'h')
    ensures !Includes(s, "th")
    decreases |s|
  {
    if |s| >= 2 {
      assert s[..2] != "th" by {
        assert s[..2][0] == s[0] && s[..2][1] == s[1];
      }
    }
    if |s| > 0 {
      NotIncludesTh(s[1..]);
    }
  }

  /** "thanks" starts with "th". */
  lemma ThanksMatchesTh()
    ensures Matches(Thanks, "th")
  {
    assert Lower("th") == "th";
    assert Lower("Thanks") == "thanks";
    assert "thanks"[..2] == "th";
  }

  /** "ship it" does not contain "th". */
  lemma ShipItMissesTh()
    ensures !Matches(ShipIt, "th")
  {
    assert Lower("th") == "th";
    assert Lower("Ship it") == "ship it";
    NotIncludesTh("ship it");
  }

  /** "wip" does not contain "th". */
  lemma WipMissesTh()
    ensures !Matches(Wip, "th")
  {
    assert Lower("th") == "th";
    assert Lower("WIP") == "wip";
    NotIncludesTh("wip");
  }

  /** Which of the three replies match the filter "th". */
  lemma MatchesTh()
    ensures Matches(Thanks, "th") && !Matches(ShipIt, "th") && !Matches(Wip, "th")
  {
    ThanksMatchesTh();
    ShipItMissesTh();
    WipMissesTh();
  }

  /** Only "Thanks" survives the filter "th". */
  lemma FilterThIsThanks()
    ensures FilterReplies(Replies, "th") == [Thanks]
  {
    MatchesTh();
    assert Replies[..2] == [Thanks, ShipIt];
    assert Replies[..2][..1] == [Thanks];
    assert [Thanks][..0] == [];
    assert FilterReplies([Thanks], "th") == [Thanks];
    assert FilterReplies([Thanks, ShipIt], "th") == [Thanks];
  }

  /** Typing "th" leaves only "Thanks", labelled as the first shortcut. */
  lemma FilterThKeepsThanks()
    ensures DeriveItems(Some(Context(Replies)), "th")
            == Some([Item("Thanks", "Thanks!", Inline, Some("Ctrl + 1"), "0")])
  {
    FilterThIsThanks();
    assert Decimal(0) == "0";
    assert Decimal(1) == "1";
    assert "Ctrl + " + "1" == "Ctrl + 1";
    assert ToItem(Thanks, 0) == Item("Thanks", "Thanks!", Inline, Some("Ctrl + 1"), "0");
    assert ItemsOf([Thanks]) == [ToItem(Thanks, 0)];
  }

  /** The key "2" addresses the second item. */
  lemma KeyTwo()
    ensures ShortcutIndex("2") == Some(1)
  {
    assert Decimal(2) == "2";
    ShortcutIndexOfDigit(2);
  }

  /** "Ship it" is the second item with no filter, and the first reply of that name. */
  lemma ShipItIsSecond()
    ensures |DeriveItems(Some(Context(Replies)), "").value| == 3
    ensures DeriveItems(Some(Context(Replies)), "").value[1].text == "Ship it"
    ensures FirstIndexNamed(Replies, "Ship it") == Some(1)
  {
    EmptyFilterShowsAll(Context(Replies));
    assert Replies[0].name[0] != "Ship it"[0];
    assert Replies[1..][0] == ShipIt;
    assert FirstIndexNamed(Replies[1..], "Ship it") == Some(0);
  }

  /** With no filter, Ctrl+2 hands "Ship it" to `onSelect` and closes the panel. */
  lemma CtrlTwoSelectsShipIt()
    ensures KeyDown(Some(Context(Replies)), State(true, ""), KeyEvent("2", true))
            == Outcome(State(false, ""), Some(ShipIt), true)
  {
    KeyTwo();
    ShipItIsSecond();
    KeyDownSelectsShortcut(Context(Replies), State(true, ""), KeyEvent("2", true), 2);
  }

  /** Ctrl+5 with three visible items selects nothing, but the panel still closes. */
  lemma CtrlFiveOfThreeCloses()
    ensures KeyDown(Some(Context(Replies)), State(true, ""), KeyEvent("5", true))
            == Outcome(State(false, ""), None, true)
  {
    EmptyFilterKeepsAll(Replies);
    assert Decimal(5) == "5";
    ShortcutIndexOfDigit(5);
    KeyDownOutOfRangeCloses(Context(Replies), State(true, ""), KeyEvent("5", true), 5);
  }

  /** A padded, signed, zero-led key such as " +03" addresses the third item, like "3". */
  lemma PaddedKeyAddressesThirdItem()
    ensures ShortcutIndex(" +03") == Some(2)
  {
    assert DigitsValue("03") == 3 by {
      assert "03"[..1] == "0";
      assert "0"[..0] == "";
    }
    assert " " + (SignText(Plus) + ("03" + "")) == " +03";
    ShortcutIndexOfKey(" ", Plus, "03", "");
  }

  /** Opening the menu after typing a filter and closing clears the filter. */
  lemma ReopenClearsFilter()
    ensures Run(Some(Context(Replies)), Initial,
                [OpenMenuRequest, FilterChange("wi"), OpenChange(false), OpenMenuRequest])
            == (State(true, ""), [])
  {
  }
}
