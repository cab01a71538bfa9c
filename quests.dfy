/** `claimGameOfLifeQuests` in solver.js: find the Game of Life quest cards on the quests
    page, then open each card, press its "check puzzle" button, classify the answer and
    close the dialog, counting claimed and skipped quests. The page is handed in as
    records, and each sleep passes the flag through `RunState.Sleep`. */
module Quests {
  import opened Text
  import opened Wrappers
  import opened Scan
  import opened RunState

  /** `headingText.startsWith('Complete the')` and one of the three quest keywords. */
  predicate IsQuestTitle(text: string) {
    StartsWith(text, "Complete the") &&
    (Contains(text, "Puzzle") || Contains(text, "Reflector") || Contains(text, "Density"))
  }

  /** How many ancestors the walk from a heading to its card looks at. */
  const MaxAncestors: nat := 20

  /** An ancestor whose text offers to start the quest is the card. */
  predicate IsCardText(text: string) {
    Contains(text, "Start Quest")
  }

  /** The ancestors the walk can reach: the first twenty, or fewer below the root. */
  function Reachable(ancestors: seq<string>): (r: seq<string>)
    ensures |r| <= MaxAncestors && |r| <= |ancestors| && r == ancestors[..|r|]
    ensures |r| == MaxAncestors || r == ancestors
  {
    if |ancestors| <= MaxAncestors then ancestors else ancestors[..MaxAncestors]
  }

  /** The card of a heading: the nearest of the reachable ancestors whose text offers to
      start the quest, by its distance above the heading (0 is the parent). */
  function CardOf(ancestors: seq<string>): (r: Option<nat>)
    ensures r.None? <==> forall k :: 0 <= k < |ancestors| && k < MaxAncestors ==> !IsCardText(ancestors[k])
    ensures r.Some? ==> r.value < MaxAncestors && r.value < |ancestors| && IsCardText(ancestors[r.value]) &&
                        forall k :: 0 <= k < r.value ==> !IsCardText(ancestors[k])
  {
    var reach := Reachable(ancestors);
    assert forall k :: 0 <= k < |reach| ==> reach[k] == ancestors[k];
    First(reach, IsCardText)
  }

  /** The ancestor walk of the discovery loop: `container` moves up one parent at a
      time, at most twenty times, and stops at the first card. */
  method FindCard(ancestors: seq<string>) returns (card: Option<nat>)
    ensures card == CardOf(ancestors)
  {
    var reach := Reachable(ancestors);
    var i := 0;
    card := None;
    while i < MaxAncestors && i < |ancestors|
      invariant 0 <= i <= |reach|
      invariant forall k :: 0 <= k < i ==> !IsCardText(reach[k])
      decreases MaxAncestors - i
    {
      if IsCardText(ancestors[i]) {
        card := Some(i);
        FirstIs(reach, IsCardText, i);
        return;
      }
      i := i + 1;
    }
    assert forall k :: 0 <= k < |reach| ==> !IsCardText(reach[k]);
  }

  /** An `h4` of the quests page: its text, and the texts of its ancestors from the
      parent upwards. */
  datatype QuestHeading = QuestHeading(text: string, ancestors: seq<string>)

  /** A discovered quest: the trimmed heading and the text of its card. */
  datatype Card = Card(name: string, text: string)

  /** The card found for a heading, when its title qualifies and a card is reachable. */
  function CardFor(h: QuestHeading): Option<Card> {
    if IsQuestTitle(Trim(h.text)) then
      match CardOf(h.ancestors)
      case None => None
      case Some(k) => Some(Card(Trim(h.text), h.ancestors[k]))
    else None
  }

  /** The discovery loop: the cards of the qualifying headings, in document order. */
  function Cards(hs: seq<QuestHeading>): (r: seq<Card>)
    ensures |r| <= |hs|
    decreases |hs|
  {
    if hs == [] then []
    else
      match CardFor(hs[0])
      case None => Cards(hs[1..])
      case Some(c) => [c] + Cards(hs[1..])
  }

  /** The cards of the headings from `i` on: the card of heading `i`, if any, then the rest. */
  lemma CardsStep(hs: seq<QuestHeading>, i: nat)
    requires i < |hs|
    ensures Cards(hs[i..]) == (if CardFor(hs[i]).Some? then [CardFor(hs[i]).value] else []) + Cards(hs[i + 1..])
  {
    assert hs[i..][1..] == hs[i + 1..];
  }

  lemma AppendAssoc<T>(a: seq<T>, b: seq<T>, c: seq<T>)
    ensures (a + b) + c == a + (b + c)
  {
  }

  /** One heading of the discovery loop: its card, when its title qualifies and the walk
      up its ancestors finds one. */
  method FindCardFor(h: QuestHeading) returns (found: Option<Card>)
    ensures found == CardFor(h)
  {
    var name := Trim(h.text);
    if !IsQuestTitle(name) {
      return None;
    }
    var card := FindCard(h.ancestors);
    if card.None? {
      return None;
    }
    return Some(Card(name, h.ancestors[card.value]));
  }

  /** The discovery loop over the `h4`s: each qualifying heading walks up to its card,
      and the card is pushed when one is found. */
  method FindQuestCards(hs: seq<QuestHeading>) returns (cards: seq<Card>)
    ensures cards == Cards(hs)
  {
    cards := [];
    var i := 0;
    while i < |hs|
      invariant 0 <= i <= |hs|
      invariant cards + Cards(hs[i..]) == Cards(hs)
      decreases |hs| - i
    {
      CardsStep(hs, i);
      var found := FindCardFor(hs[i]);
      if found.Some? {
        AppendAssoc(cards, [found.value], Cards(hs[i + 1..]));
        cards := cards + [found.value];
      }
      i := i + 1;
    }
    assert hs[|hs|..] == [];
  }

  /** Every discovered card has a qualifying title and offers to start its quest, and
      there is none exactly when no heading both qualifies and reaches a card. */
  lemma {:induction false} CardsSpec(hs: seq<QuestHeading>)
    ensures forall c :: c in Cards(hs) ==> IsQuestTitle(c.name) && IsCardText(c.text)
    ensures Cards(hs) == [] <==> forall j :: 0 <= j < |hs| ==> CardFor(hs[j]).None?
    decreases |hs|
  {
    if hs != [] {
      CardsSpec(hs[1..]);
      assert forall j :: 1 <= j < |hs| ==> hs[j] == hs[1..][j - 1];
    }
  }

  /** Every qualifying heading with a reachable card is among the discovered cards. */
  lemma {:induction false} CardsComplete(hs: seq<QuestHeading>, j: nat)
    requires j < |hs| && CardFor(hs[j]).Some?
    ensures CardFor(hs[j]).value in Cards(hs)
    decreases j
  {
    CardsStep(hs, 0);
    assert hs[0..] == hs;
    if j > 0 {
      assert hs[1..][j - 1] == hs[j];
      CardsComplete(hs[1..], j - 1);
    }
  }

  /** What one iteration of the counting loop observes: the text of its card when the
      loop reaches it (after the earlier cards were opened and claimed), the dialog's
      buttons when it opens, the body text once the check has run, and the dialog's
      buttons when it is closed. */
  datatype QuestDialog = QuestDialog(cardText: string, buttons: seq<string>, body: string, closeButtons: seq<DialogButton>)

  /** A button of a dialog: its text, its `aria-label` (`""` when absent), and whether
      it holds an icon whose class names a close icon. */
  datatype DialogButton = DialogButton(text: string, ariaLabel: string, hasCloseIcon: bool)

  /** The dialog of card `i`; a card beyond the observations sees an empty dialog. */
  function DialogAt(ds: seq<QuestDialog>, i: nat): QuestDialog {
    if i < |ds| then ds[i] else QuestDialog("", [], "", [])
  }

  predicate IsCheckButton(text: string) {
    Contains(Lower(text), "check puzzle")
  }

  predicate IsCloseButton(b: DialogButton) {
    Clean(b.text) == "close" || Contains(Lower(b.ariaLabel), "close") || b.hasCloseIcon
  }

  datatype Verdict = Claimed | Skipped

  /** The classification of the page text after a check: success words first, then the
      already-done words, and anything else counts as claimed. */
  function Classify(body: string): (v: Verdict)
    ensures v == Skipped ==> Contains(body, "already completed") || Contains(body, "already claimed")
    ensures Contains(body, "successfully") ==> v == Claimed
  {
    if Contains(body, "successfully") || Contains(body, "claimed") then Claimed
    else if Contains(body, "already completed") || Contains(body, "already claimed") then Skipped
    else Claimed
  }

  /** A check result is counted as skipped exactly when it says the quest is already
      completed and says neither "successfully" nor "claimed". */
  lemma ClassifySkipped(body: string)
    ensures Classify(body) == Skipped <==>
      Contains(body, "already completed") && !Contains(body, "successfully") && !Contains(body, "claimed")
  {
    if Contains(body, "already claimed") {
      AlreadyClaimedIsClaimed(body);
    }
  }

  /** The "already claimed" test is never reached with a true result: such a text also
      contains "claimed" and is counted as claimed. */
  lemma AlreadyClaimedIsClaimed(body: string)
    requires Contains(body, "already claimed")
    ensures Classify(body) == Claimed
  {
    OccursInMiddle("already ", "claimed", "");
    assert "already " + "claimed" + "" == "already claimed";
    ContainsPart(body, "already claimed", "claimed");
  }

  /** A page action of the quest run. */
  datatype QuestAction =
    | OpenQuests
    | ClickCard(card: nat)
    | ClickCheck(button: nat)
    | ClickClose(button: nat)
    | PressEscape

  /** The run's flag, its two counters and its page actions. */
  datatype QuestRun = QuestRun(flag: Flag, claimed: nat, skipped: nat, trace: seq<QuestAction>)

  function Wait(q: QuestRun): QuestRun {
    q.(flag := Sleep(q.flag))
  }

  function Act(q: QuestRun, a: QuestAction): QuestRun {
    q.(trace := q.trace + [a])
  }

  /** Closing a dialog: the first close button is clicked, or else Escape is pressed;
      one sleep either way. */
  function CloseDialog(buttons: seq<DialogButton>, q: QuestRun): (r: QuestRun)
    ensures r.trace == q.trace + [CloseAction(buttons)]
    ensures r.claimed == q.claimed && r.skipped == q.skipped && r.flag == Sleep(q.flag)
  {
    match First(buttons, IsCloseButton)
    case None => Wait(Act(q, PressEscape))
    case Some(b) => Wait(Act(q, ClickClose(b)))
  }

  /** The check of one opened card: press the first "check puzzle" button, sleep, and
      count the classified result; without such a button nothing is counted. */
  function CheckCard(d: QuestDialog, q: QuestRun): (r: QuestRun)
    ensures r.trace == q.trace + CheckActions(d)
    ensures CheckActions(d) == [] ==> r == q
    ensures CheckActions(d) != [] ==>
      r.flag == Sleep(q.flag) &&
      (Classify(d.body) == Claimed ==> r.claimed == q.claimed + 1 && r.skipped == q.skipped) &&
      (Classify(d.body) == Skipped ==> r.skipped == q.skipped + 1 && r.claimed == q.claimed)
  {
    match First(d.buttons, IsCheckButton)
    case None => q
    case Some(b) =>
      var q1 := Wait(Act(q, ClickCheck(b)));
      if Classify(d.body) == Claimed then q1.(claimed := q1.claimed + 1)
      else q1.(skipped := q1.skipped + 1)
  }

  /** One card of the counting loop, entered with the flag set: a card whose text says
      "Completed" when the loop reaches it is skipped; any other is opened, checked and
      closed. */
  function ClaimOne(i: nat, d: QuestDialog, q: QuestRun): (r: QuestRun)
    ensures q.trace <= r.trace
  {
    if Contains(d.cardText, "Completed") then q.(skipped := q.skipped + 1)
    else
      var shown := Wait(Wait(Act(q, ClickCard(i))));
      Wait(CloseDialog(d.closeButtons, Wait(CheckCard(d, shown))))
  }

  /** Each card increments at most one counter: skipped when it says "Completed" or the
      check reports it done, claimed when a check ran with any other result, and
      neither when no check button was found. */
  lemma ClaimOneCounts(i: nat, d: QuestDialog, q: QuestRun)
    ensures var r := ClaimOne(i, d, q);
      var checked := exists b :: 0 <= b < |d.buttons| && IsCheckButton(d.buttons[b]);
      var done := Contains(d.cardText, "Completed");
      (r.claimed == q.claimed + 1 <==> !done && checked && Classify(d.body) == Claimed) &&
      (r.skipped == q.skipped + 1 <==> done || (checked && Classify(d.body) == Skipped)) &&
      (r.claimed == q.claimed || r.skipped == q.skipped) &&
      q.claimed <= r.claimed <= q.claimed + 1 && q.skipped <= r.skipped <= q.skipped + 1
  {
  }

  /** The counting loop from card `i` on; it stops at the first iteration that finds
      the flag clear. */
  function ClaimFrom(cards: seq<Card>, ds: seq<QuestDialog>, i: nat, q: QuestRun): (r: QuestRun)
    requires i <= |cards|
    ensures q.trace <= r.trace
    decreases |cards| - i
  {
    if i == |cards| || !q.flag.running then q
    else ClaimFrom(cards, ds, i + 1, ClaimOne(i, DialogAt(ds, i), q))
  }

  /** The loop counts at most one per card. */
  lemma {:induction false} ClaimFromCounts(cards: seq<Card>, ds: seq<QuestDialog>, i: nat, q: QuestRun)
    requires i <= |cards|
    ensures var r := ClaimFrom(cards, ds, i, q);
      q.claimed <= r.claimed && q.skipped <= r.skipped &&
      (r.claimed - q.claimed) + (r.skipped - q.skipped) <= |cards| - i
    decreases |cards| - i
  {
    if i < |cards| && q.flag.running {
      var q1 := ClaimOne(i, DialogAt(ds, i), q);
      assert ClaimFrom(cards, ds, i, q) == ClaimFrom(cards, ds, i + 1, q1);
      ClaimOneCounts(i, DialogAt(ds, i), q);
      ClaimFromCounts(cards, ds, i + 1, q1);
    }
  }

  /** With no stop pending, a loop over cards that all say "Completed" skips every one
      of them and clicks nothing. */
  lemma {:induction false} ClaimFromAllCompleted(cards: seq<Card>, ds: seq<QuestDialog>, i: nat, q: QuestRun)
    requires i <= |cards| && q.flag.running && q.flag.stopIn.None?
    requires forall k :: i <= k < |cards| ==> Contains(DialogAt(ds, k).cardText, "Completed")
    ensures var r := ClaimFrom(cards, ds, i, q);
      r.claimed == q.claimed && r.skipped == q.skipped + (|cards| - i) && r.trace == q.trace
    decreases |cards| - i
  {
    if i < |cards| {
      ClaimFromAllCompleted(cards, ds, i + 1, ClaimOne(i, DialogAt(ds, i), q));
    }
  }

  /** The loop clicks only cards from `i` on that do not say "Completed" when it
      reaches them. */
  lemma {:induction false} ClaimFromClicks(cards: seq<Card>, ds: seq<QuestDialog>, i: nat, q: QuestRun)
    requires i <= |cards|
    ensures var r := ClaimFrom(cards, ds, i, q);
      forall j :: |q.trace| <= j < |r.trace| && r.trace[j].ClickCard? ==>
        i <= r.trace[j].card < |cards| && !Contains(DialogAt(ds, r.trace[j].card).cardText, "Completed")
    decreases |cards| - i
  {
    if i < |cards| && q.flag.running {
      var q1 := ClaimOne(i, DialogAt(ds, i), q);
      assert ClaimFrom(cards, ds, i, q) == ClaimFrom(cards, ds, i + 1, q1);
      ClaimOneClicks(i, DialogAt(ds, i), q);
      ClaimFromClicks(cards, ds, i + 1, q1);
      ClicksJoin(ds, |cards|, i, q.trace, q1.trace, ClaimFrom(cards, ds, i + 1, q1).trace);
    }
  }

  /** The clicks of card `i` followed by the clicks of the cards after it. */
  lemma ClicksJoin(ds: seq<QuestDialog>, n: nat, i: nat, t0: seq<QuestAction>, t1: seq<QuestAction>, t2: seq<QuestAction>)
    requires i < n && t0 <= t1 <= t2
    requires forall j :: |t0| <= j < |t1| && t1[j].ClickCard? ==>
      t1[j].card == i && !Contains(DialogAt(ds, i).cardText, "Completed")
    requires forall j :: |t1| <= j < |t2| && t2[j].ClickCard? ==>
      i + 1 <= t2[j].card < n && !Contains(DialogAt(ds, t2[j].card).cardText, "Completed")
    ensures forall j :: |t0| <= j < |t2| && t2[j].ClickCard? ==>
      i <= t2[j].card < n && !Contains(DialogAt(ds, t2[j].card).cardText, "Completed")
  {
    forall j | |t0| <= j < |t1|
      ensures t2[j] == t1[j]
    {
    }
  }

  /** The action of a check, when the dialog has a check button. */
  function CheckActions(d: QuestDialog): (r: seq<QuestAction>)
    ensures forall a :: a in r ==> a.ClickCheck?
    ensures r == [] <==> forall k :: 0 <= k < |d.buttons| ==> !IsCheckButton(d.buttons[k])
    ensures r != [] ==> r == [ClickCheck(First(d.buttons, IsCheckButton).value)]
  {
    match First(d.buttons, IsCheckButton)
    case None => []
    case Some(b) => [ClickCheck(b)]
  }

  /** The action that closes a dialog. */
  function CloseAction(buttons: seq<DialogButton>): (r: QuestAction)
    ensures r.ClickClose? || r == PressEscape
    ensures r == PressEscape <==> forall k :: 0 <= k < |buttons| ==> !IsCloseButton(buttons[k])
    ensures First(buttons, IsCloseButton).Some? ==> r == ClickClose(First(buttons, IsCloseButton).value)
  {
    match First(buttons, IsCloseButton)
    case None => PressEscape
    case Some(b) => ClickClose(b)
  }

  /** One card clicks at most itself, and only when it does not say "Completed". */
  lemma ClaimOneClicks(i: nat, d: QuestDialog, q: QuestRun)
    ensures var r := ClaimOne(i, d, q);
      q.trace <= r.trace &&
      forall j :: |q.trace| <= j < |r.trace| && r.trace[j].ClickCard? ==>
        r.trace[j].card == i && !Contains(d.cardText, "Completed")
  {
    if !Contains(d.cardText, "Completed") {
      var shown := Wait(Wait(Act(q, ClickCard(i))));
      var extra := CheckActions(d) + [CloseAction(d.closeButtons)];
      assert ClaimOne(i, d, q).trace == q.trace + [ClickCard(i)] + extra;
      ClickThenOthers(q.trace, i, extra);
    }
  }

  /** A trace that grows by one card click and then by actions that click no card. */
  lemma ClickThenOthers(t0: seq<QuestAction>, i: nat, extra: seq<QuestAction>)
    requires forall a :: a in extra ==> !a.ClickCard?
    ensures var t := t0 + [ClickCard(i)] + extra;
      forall j :: |t0| <= j < |t| && t[j].ClickCard? ==> t[j].card == i
  {
    var t := t0 + [ClickCard(i)] + extra;
    forall j | |t0| < j < |t|
      ensures t[j] == extra[j - |t0| - 1]
    {
    }
  }

  /** A flag that is clear when the loop starts stops it before any card. */
  lemma ClaimFromStopped(cards: seq<Card>, ds: seq<QuestDialog>, i: nat, q: QuestRun)
    requires i <= |cards| && !q.flag.running
    ensures ClaimFrom(cards, ds, i, q) == q
  {
  }

  /** What the quests page shows: the location, its `h4` headings, and the dialogs of
      the cards in discovery order. */
  datatype QuestPage = QuestPage(href: string, pathname: string, headings: seq<QuestHeading>, dialogs: seq<QuestDialog>)

  const PortalHost: string := "portal.linera.net"
  const NotOnQuestsPortal: string := "Not on " + PortalHost + " - please navigate to /quests first"
  /** The words that the `catch` looks for in a message. */
  const NoQuests: string := "No Game of Life quests found"
  const NoQuestsFound: string := NoQuests + " - they may already be completed or page not loaded"
  const NoQuestsLeft: string := NoQuests + " - they may all be completed already"

  /** The `catch` of `claimGameOfLifeQuests`: a "no quests" error is replaced by one with
      a different hint, anything else is passed on. */
  function Rethrow(message: string): string {
    if Contains(message, NoQuests) then NoQuestsLeft else message
  }

  /** The not-on-portal error leaves the `catch` unchanged, and it differs from the
      reworded no-quests error. */
  lemma RethrowPortalError()
    ensures Rethrow(NotOnQuestsPortal) == NotOnQuestsPortal
    ensures NotOnQuestsPortal != NoQuestsLeft
  {
    assert NoQuests[3] == 'G' && NotOnQuestsPortal[3] == ' ' && NoQuestsLeft[3] == 'G';
    NotContainsByChar(NotOnQuestsPortal, NoQuests, 3);
  }

  /** The no-quests error of the body leaves the `catch` reworded. */
  lemma RethrowNoQuestsError()
    ensures Rethrow(NoQuestsFound) == NoQuestsLeft
  {
    assert StartsWith(NoQuestsFound, NoQuests);
  }

  /** `claimGameOfLifeQuests`: check the location, go to `/quests` when elsewhere, wait
      for the page, discover the cards and run the counting loop. */
  function ClaimQuests(p: QuestPage, f: Flag): (r: (Outcome, QuestRun))
    ensures r.0.Thrown? ==> r.1.claimed == 0 && r.1.skipped == 0 && forall a :: a in r.1.trace ==> !a.ClickCard?
    ensures r.0.Thrown? ==> r.0 == Thrown(NotOnQuestsPortal) || r.0 == Thrown(NoQuestsLeft)
  {
    RethrowPortalError();
    RethrowNoQuestsError();
    var q := QuestRun(f, 0, 0, []);
    if !Contains(p.href, PortalHost) then (Thrown(Rethrow(NotOnQuestsPortal)), q)
    else
      var q0 := if Contains(p.pathname, "/quests") then q else Wait(Act(q, OpenQuests));
      var q1 := Wait(q0);
      var cards := Cards(p.headings);
      if cards == [] then (Thrown(Rethrow(NoQuestsFound)), q1)
      else (Done, ClaimFrom(cards, p.dialogs, 0, q1))
  }

  /** The run throws exactly when it is not on the portal or finds no quest card, with
      the message of each case, and its counters never exceed the number of cards. */
  lemma ClaimQuestsSpec(p: QuestPage, f: Flag)
    ensures var r := ClaimQuests(p, f);
      (r.0 == Thrown(NotOnQuestsPortal) <==> !Contains(p.href, PortalHost)) &&
      (r.0 == Thrown(NoQuestsLeft) <==> Contains(p.href, PortalHost) && Cards(p.headings) == []) &&
      (r.0.Done? <==> Contains(p.href, PortalHost) && Cards(p.headings) != []) &&
      r.1.claimed + r.1.skipped <= |Cards(p.headings)|
  {
    RethrowPortalError();
    RethrowNoQuestsError();
    if Contains(p.href, PortalHost) {
      var q := QuestRun(f, 0, 0, []);
      var q0 := if Contains(p.pathname, "/quests") then q else Wait(Act(q, OpenQuests));
      var cards := Cards(p.headings);
      if cards != [] {
        ClaimFromCounts(cards, p.dialogs, 0, Wait(q0));
      }
    }
  }

  /** On the portal, with quest cards found that all say "Completed" and no stop
      pending, the run ends normally having claimed none and skipped every card, and it
      clicks no card. */
  lemma ClaimQuestsAllCompleted(p: QuestPage, f: Flag)
    requires Contains(p.href, PortalHost) && Cards(p.headings) != []
    requires f.running && f.stopIn.None?
    requires forall k :: 0 <= k < |Cards(p.headings)| ==> Contains(DialogAt(p.dialogs, k).cardText, "Completed")
    ensures var r := ClaimQuests(p, f);
      r.0 == Done && r.1.claimed == 0 && r.1.skipped == |Cards(p.headings)| &&
      forall a :: a in r.1.trace ==> !a.ClickCard?
  {
    var q := QuestRun(f, 0, 0, []);
    var q0 := if Contains(p.pathname, "/quests") then q else Wait(Act(q, OpenQuests));
    ClaimFromAllCompleted(Cards(p.headings), p.dialogs, 0, Wait(q0));
  }
}
