/** The state transitions of the main screen: the bibliography selection,
    the flashcard deck, the per-module message filter and the guard that
    starts a send. Each event handler is a pure function from the old
    state to the new one. */
module AppState {
  import opened Prelude
  import opened Strings

  /** The three tabs of the screen (`activeModule`). */
  datatype Module = Exam | Doubt | Flashcards

  datatype Role = User | Assistant

  /** A chat message; messages may carry the module (tab) they were sent in. */
  datatype Message = Message(role: Role, content: string, tab: Option<Module>)

  datatype Card = Card(question: string, answer: string)

  /** The flashcard deck on screen: the cards, the current index and
      whether the card shows its answer. */
  datatype Deck = Deck(cards: seq<Card>, index: int, flipped: bool)

  /** The state the handlers below read and write. `sessionId` is `None`
      while no session has been created. */
  datatype App = App(
    messages: seq<Message>,
    input: string,
    loading: bool,
    sessionId: Option<string>,
    active: Module,
    deck: Deck,
    selected: seq<string>)

  // ---------------------------------------------------------------------
  // Document selection

  /** `xs.filter(item => item !== id)`. */
  function RemoveAll(xs: seq<string>, id: string): (r: seq<string>)
    ensures id !in r
    ensures |r| <= |xs|
    ensures forall x :: x != id ==> (x in r <==> x in xs)
  {
    if |xs| == 0 then []
    else if xs[0] == id then RemoveAll(xs[1..], id)
    else
      assert forall x :: x in xs <==> x == xs[0] || x in xs[1..];
      [xs[0]] + RemoveAll(xs[1..], id)
  }

  /** Filtering distributes over concatenation, so what is kept keeps its
      relative order. */
  lemma {:induction false} RemoveAllAppend(a: seq<string>, b: seq<string>, id: string)
    ensures RemoveAll(a + b, id) == RemoveAll(a, id) + RemoveAll(b, id)
    decreases |a|
  {
    if |a| > 0 {
      assert (a + b)[0] == a[0];
      assert (a + b)[1..] == a[1..] + b;
      RemoveAllAppend(a[1..], b, id);
    } else {
      assert a + b == b;
    }
  }

  /** Removing an id that does not occur changes nothing. */
  lemma {:induction false} RemoveAllAbsent(xs: seq<string>, id: string)
    requires id !in xs
    ensures RemoveAll(xs, id) == xs
    decreases |xs|
  {
    if |xs| > 0 {
      assert xs[0] != id;
      assert id !in xs[1..];
      RemoveAllAbsent(xs[1..], id);
      assert xs == [xs[0]] + xs[1..];
    }
  }

  /** `toggleDocSelection`: a selected id is unselected (every copy of it
      goes), an unselected one is added at the end. */
  function ToggleDoc(selected: seq<string>, id: string): (r: seq<string>)
    ensures id in r <==> id !in selected
    ensures forall x :: x != id ==> (x in r <==> x in selected)
    ensures id !in selected ==> |r| == |selected| + 1 && r[|selected|] == id
  {
    if id in selected then RemoveAll(selected, id) else selected + [id]
  }

  /** Toggling leaves the other ids in the same relative order. */
  lemma ToggleKeepsOthers(selected: seq<string>, id: string)
    ensures RemoveAll(ToggleDoc(selected, id), id) == RemoveAll(selected, id)
  {
    if id !in selected {
      RemoveAllAppend(selected, [id], id);
      assert RemoveAll([id], id) == [];
    } else {
      RemoveAllAbsent(RemoveAll(selected, id), id);
    }
  }

  /** An absent id toggled twice leaves the selection as it was. */
  lemma ToggleTwiceAbsent(selected: seq<string>, id: string)
    requires id !in selected
    ensures ToggleDoc(ToggleDoc(selected, id), id) == selected
  {
    RemoveAllAppend(selected, [id], id);
    RemoveAllAbsent(selected, id);
    assert RemoveAll([id], id) == [];
  }

  /** A present id toggled twice ends up once, at the end. */
  lemma ToggleTwicePresent(selected: seq<string>, id: string)
    requires id in selected
    ensures ToggleDoc(ToggleDoc(selected, id), id) == RemoveAll(selected, id) + [id]
  {
  }

  // ---------------------------------------------------------------------
  // The flashcard deck

  function Max(a: int, b: int): int { if a < b then b else a }
  function Min(a: int, b: int): int { if a < b then a else b }

  /** The "Anterior" button: disabled on the first card, where a click
      does nothing; otherwise one card back (never below zero), answer
      hidden. */
  function PrevCard(d: Deck): (r: Deck)
    ensures r.cards == d.cards
    ensures d.index == 0 ==> r == d
    ensures d.index != 0 ==> !r.flipped && r.index == Max(d.index - 1, 0)
  {
    if d.index == 0 then d
    else Deck(d.cards, Max(0, d.index - 1), false)
  }

  /** The "Siguiente" button: disabled on the last card, where a click
      does nothing; otherwise one card on (never past the last card),
      answer hidden. */
  function NextCard(d: Deck): (r: Deck)
    ensures r.cards == d.cards
    ensures d.index == |d.cards| - 1 ==> r == d
    ensures d.index != |d.cards| - 1 ==> !r.flipped && r.index == Min(d.index + 1, |d.cards| - 1)
  {
    if d.index == |d.cards| - 1 then d
    else Deck(d.cards, Min(|d.cards| - 1, d.index + 1), false)
  }

  /** An index inside the deck. */
  predicate InDeck(d: Deck) {
    0 <= d.index < |d.cards|
  }

  /** With at least one card, navigation keeps the index inside the deck. */
  lemma NavigationInDeck(d: Deck)
    requires InDeck(d)
    ensures InDeck(PrevCard(d)) && InDeck(NextCard(d))
  {
  }

  /** Back then forth returns to the same card, and so does forth then
      back, away from the disabled ends; the answer ends up hidden. */
  lemma NavigationRoundTrip(d: Deck)
    requires InDeck(d)
    ensures d.index > 0 ==> NextCard(PrevCard(d)) == d.(flipped := false)
    ensures d.index < |d.cards| - 1 ==> PrevCard(NextCard(d)) == d.(flipped := false)
  {
  }

  /** At the ends the disabled button leaves the deck as it is, answer
      side included. */
  lemma NavigationClamps(d: Deck)
    requires InDeck(d)
    ensures d.index == 0 ==> PrevCard(d) == d
    ensures d.index == |d.cards| - 1 ==> NextCard(d) == d
  {
  }

  /** Clicking the card turns it over. */
  function FlipCard(d: Deck): (r: Deck)
    ensures r.cards == d.cards && r.index == d.index
    ensures r.flipped != d.flipped
  {
    d.(flipped := !d.flipped)
  }

  lemma FlipTwice(d: Deck)
    ensures FlipCard(FlipCard(d)) == d
  {
  }

  /** "Cambiar selección": the deck is emptied; index and flip are kept. */
  function BackToSelection(d: Deck): (r: Deck)
    ensures r.cards == [] && r.index == d.index && r.flipped == d.flipped
  {
    d.(cards := [])
  }

  /** What the flashcard generator came back with: a failure (thrown
      error), or a result whose `flashcards` field may be missing. */
  datatype Generated = Failed | Result(flashcards: Option<seq<Card>>)

  /** The alert shown when nothing is selected. */
  const SelectAlert := "Por favor, selecciona al menos un texto bibliográfico."

  /** `handleGenerateFlashcards`, with the generator's outcome as a
      parameter. Returns the state once loading has finished and the alert
      shown, if any. */
  function GenerateFlashcards(st: App, outcome: Generated): (r: (App, Option<string>))
    ensures |st.selected| == 0 <==> r.1.Some?
    ensures r.1.Some? ==> r.0 == st && r.1.value == SelectAlert
    ensures r.1.None? ==> !r.0.loading && r.0.selected == st.selected && r.0.messages == st.messages
    ensures r.1.None? && outcome.Result? && outcome.flashcards.Some? ==>
      r.0.deck == Deck(outcome.flashcards.value, 0, false)
    ensures r.1.None? && !(outcome.Result? && outcome.flashcards.Some?) ==> r.0.deck == st.deck
    ensures r.1.None? ==> r.0 == st.(loading := false, deck := r.0.deck)
  {
    if |st.selected| == 0 then (st, Some(SelectAlert))
    else
      var deck := match outcome
        case Result(Some(cards)) => Deck(cards, 0, false)
        case _ => st.deck;
      (st.(loading := false, deck := deck), None)
  }

  /** A fresh deck shows its first card, question side up, and stays
      in range while the user navigates it. */
  lemma GeneratedDeckInRange(st: App, cards: seq<Card>)
    requires |st.selected| > 0 && |cards| > 0
    ensures var d := GenerateFlashcards(st, Result(Some(cards))).0.deck;
      InDeck(d) && d.index == 0 && !d.flipped && InDeck(NextCard(d)) && InDeck(PrevCard(d))
  {
  }

  // ---------------------------------------------------------------------
  // Messages

  /** A message is listed under `active` if it has no module or that one. */
  predicate Shown(m: Message, active: Module) {
    m.tab.None? || m.tab.value == active
  }

  /** `messages.filter(m => !m.module || m.module === activeModule)`. */
  function Visible(msgs: seq<Message>, active: Module): (r: seq<Message>)
    ensures |r| <= |msgs|
    ensures forall m :: m in r <==> m in msgs && Shown(m, active)
  {
    if |msgs| == 0 then []
    else
      assert forall m :: m in msgs <==> m == msgs[0] || m in msgs[1..];
      (if Shown(msgs[0], active) then [msgs[0]] else []) + Visible(msgs[1..], active)
  }

  /** The filter keeps the original order: it distributes over `+`. */
  lemma {:induction false} VisibleAppend(a: seq<Message>, b: seq<Message>, active: Module)
    ensures Visible(a + b, active) == Visible(a, active) + Visible(b, active)
    decreases |a|
  {
    if |a| > 0 {
      assert (a + b)[0] == a[0];
      assert (a + b)[1..] == a[1..] + b;
      VisibleAppend(a[1..], b, active);
    } else {
      assert a + b == b;
    }
  }

  /** Filtering twice is filtering once. */
  lemma {:induction false} VisibleIdempotent(msgs: seq<Message>, active: Module)
    ensures Visible(Visible(msgs, active), active) == Visible(msgs, active)
    decreases |msgs|
  {
    if |msgs| > 0 {
      var head := if Shown(msgs[0], active) then [msgs[0]] else [];
      VisibleAppend(head, Visible(msgs[1..], active), active);
      VisibleIdempotent(msgs[1..], active);
      if Shown(msgs[0], active) {
        assert [msgs[0]][1..] == [];
      }
    }
  }

  // ---------------------------------------------------------------------
  // Sending

  /** `sessionId` is truthy: present and not the empty string. */
  predicate HasSession(st: App) {
    st.sessionId.Some? && st.sessionId.value != ""
  }

  /** The guard at the top of `handleSend`. */
  predicate CanSend(st: App) {
    !AllSpace(st.input) && HasSession(st) && !st.loading
  }

  /** The synchronous start of `handleSend`: on a passing guard the input
      is cleared, loading starts and the user's text is appended, tagged
      with the active module; otherwise nothing happens. */
  function SendStart(st: App): (r: App)
    ensures r == st <==> !CanSend(st)
    ensures CanSend(st) ==>
      && r.input == "" && r.loading && |r.messages| == |st.messages| + 1
      && r.messages[|st.messages|] == Message(User, st.input, Some(st.active))
      && r.messages[..|st.messages|] == st.messages
    ensures r.sessionId == st.sessionId && r.active == st.active && r.deck == st.deck && r.selected == st.selected
  {
    if !CanSend(st) then st
    else st.(input := "", loading := true, messages := st.messages + [Message(User, st.input, Some(st.active))])
  }

  /** A second send while the first is in flight is ignored. */
  lemma SendStartIdempotent(st: App)
    ensures SendStart(SendStart(st)) == SendStart(st)
  {
  }

  /** The message a user sends shows up at the end of the list of the
      module it was sent from. */
  lemma SentMessageShown(st: App)
    requires CanSend(st)
    ensures Visible(SendStart(st).messages, st.active)
         == Visible(st.messages, st.active) + [Message(User, st.input, Some(st.active))]
  {
    var m := Message(User, st.input, Some(st.active));
    VisibleAppend(st.messages, [m], st.active);
    assert Visible([m], st.active) == [m];
  }

  /** The end of `handleSend`: with a reply, the assistant's message is
      appended, tagged with the module of the send; in every case loading
      ends. */
  function SendFinish(st: App, tab: Module, reply: Option<string>): (r: App)
    ensures !r.loading
    ensures reply.None? ==> r.messages == st.messages
    ensures reply.Some? ==> r.messages == st.messages + [Message(Assistant, reply.value, Some(tab))]
    ensures r.input == st.input && r.sessionId == st.sessionId && r.deck == st.deck && r.selected == st.selected
    ensures r == st.(loading := false, messages := r.messages)
  {
    match reply
    case None => st.(loading := false)
    case Some(text) => st.(loading := false, messages := st.messages + [Message(Assistant, text, Some(tab))])
  }

  /** A completed exchange leaves the question and its answer, in that
      order, at the end of the module's list, and the screen ready to
      send again. */
  lemma ExchangeShown(st: App, reply: string)
    requires CanSend(st)
    ensures var r := SendFinish(SendStart(st), st.active, Some(reply));
      && !r.loading
      && Visible(r.messages, st.active)
         == Visible(st.messages, st.active)
            + [Message(User, st.input, Some(st.active)), Message(Assistant, reply, Some(st.active))]
  {
    var a := Message(Assistant, reply, Some(st.active));
    var started := SendStart(st);
    SentMessageShown(st);
    VisibleAppend(started.messages, [a], st.active);
    assert Visible([a], st.active) == [a];
  }
}
