/** What a call trace says was swapped: the list of swap events that a walk over the
    calls builds up, and how faithfully it accounts for the transfers it met. */
module SwapTrace {

  datatype Option<+T> = None | Some(value: T)

  /** An address as it is spelled in the trace; spellings are only ever compared. */
  type Address = nat

  datatype Dex = UniswapV2 | BakerySwap | UniswapV3

  /** The state of one event. */
  datatype Event = Event(
    dex: Option<Dex>,
    address: Address,
    tokenIn: Option<Address>,
    tokenOut: Option<Address>,
    amountIn: int,
    amountOut: int)

  // ----- what a transfer does to one event -----

  datatype Hit = Missed | AsRecipient | AsSender

  /** An amount below zero turns the event round. */
  function SwapInOutIfMinus(e: Event): Event {
    if e.amountIn < 0 || e.amountOut < 0
    then Event(e.dex, e.address, e.tokenOut, e.tokenIn, -e.amountOut, -e.amountIn)
    else e
  }

  /** The side is free for the token, or holds it. */
  predicate FreeFor(side: Option<Address>, token: Address) {
    side == None || side == Some(token)
  }

  /** From e to f the amounts become i and o, except that the two sides change places, with
      both amounts negated, when one of them is below zero. */
  ghost predicate Settles(e: Event, f: Event, i: int, o: int) {
    && f.dex == e.dex && f.address == e.address
    && (if i < 0 || o < 0
        then f.tokenIn == e.tokenOut && f.tokenOut == e.tokenIn && f.amountIn == -o && f.amountOut == -i
        else f.tokenIn == e.tokenIn && f.tokenOut == e.tokenOut && f.amountIn == i && f.amountOut == o)
  }

  /** The event takes the transfer as its recipient: it gains the token, or is paid back
      what it gave. */
  ghost predicate TakesIn(e: Event, sender: Address, to: Address, recipient: Address) {
    e.address == recipient && (FreeFor(e.tokenIn, to) || (e.tokenOut == Some(to) && e.address != sender))
  }

  /** The event takes the transfer as its sender, unless it takes it as its recipient. */
  ghost predicate TakesOut(e: Event, sender: Address, to: Address, recipient: Address) {
    && e.address == sender && (FreeFor(e.tokenOut, to) || e.tokenIn == Some(to))
    && !TakesIn(e, sender, to, recipient)
  }

  /** What makes an event count as a swap. */
  predicate IsValid(e: Event) {
    e.dex.Some? && e.tokenIn.Some? && e.tokenOut.Some? && 0 < e.amountIn && 0 < e.amountOut
  }

  /** An event whose sides have changed places counts as a swap only if both amounts were
      below zero: with something left on the other side it is dropped. */
  lemma {:induction false} TurnedIsValidWhen(e: Event, f: Event, i: int, o: int)
    requires Settles(e, f, i, o) && (i < 0 || o < 0)
    ensures IsValid(f) <==> e.dex.Some? && e.tokenIn.Some? && e.tokenOut.Some? && i < 0 && o < 0
  {
  }

  function Update(e: Event, sender: Address, to: Address, recipient: Address, value: int): (Event, Hit) {
    if e.address == recipient && (e.tokenIn == None || e.tokenIn == Some(to)) then
      (e.(tokenIn := Some(to), amountIn := e.amountIn + value), AsRecipient)
    else if e.address == sender && (e.tokenOut == None || e.tokenOut == Some(to)) then
      (e.(tokenOut := Some(to), amountOut := e.amountOut + value), AsSender)
    else if e.address == recipient && e.tokenOut == Some(to) then
      (SwapInOutIfMinus(e.(amountOut := e.amountOut - value)), AsRecipient)
    else if e.address == sender && e.tokenIn == Some(to) then
      (SwapInOutIfMinus(e.(amountIn := e.amountIn - value)), AsSender)
    else (e, Missed)
  }

  function UpdateAll(es: seq<Event>, sender: Address, to: Address, recipient: Address, value: int): (r: seq<Event>)
    ensures |r| == |es| && forall k :: 0 <= k < |es| ==> r[k] == Update(es[k], sender, to, recipient, value).0
  {
    seq(|es|, k requires 0 <= k < |es| => Update(es[k], sender, to, recipient, value).0)
  }

  /** How many events take the transfer in the given role. */
  function Hits(es: seq<Event>, sender: Address, to: Address, recipient: Address, role: Hit): nat {
    if es == [] then 0
    else Hits(es[..|es| - 1], sender, to, recipient, role)
         + (if Update(es[|es| - 1], sender, to, recipient, 0).1 == role then 1 else 0)
  }

  /** The list after a transfer: updated, and with a new event for a side nothing took. */
  function RecordTransfer(es: seq<Event>, sender: Address, to: Address, recipient: Address, value: int): seq<Event> {
    UpdateAll(es, sender, to, recipient, value)
    + (if Hits(es, sender, to, recipient, AsRecipient) == 0
       then [Event(None, recipient, Some(to), None, value, 0)] else [])
    + (if Hits(es, sender, to, recipient, AsSender) == 0
       then [Event(None, sender, None, Some(to), 0, value)] else [])
  }

  function Mark(e: Event, dex: Dex, to: Address): Event {
    if e.address == to then e.(dex := Some(dex)) else e
  }

  function MarkAll(es: seq<Event>, dex: Dex, to: Address): (r: seq<Event>)
    ensures |r| == |es| && forall k :: 0 <= k < |es| ==> r[k] == Mark(es[k], dex, to)
  {
    seq(|es|, k requires 0 <= k < |es| => Mark(es[k], dex, to))
  }

  ghost predicate Mentions(es: seq<Event>, address: Address) {
    exists k :: 0 <= k < |es| && es[k].address == address
  }

  /** The list after a swap call on a pool. */
  ghost function RecordSwap(es: seq<Event>, dex: Dex, to: Address): seq<Event> {
    MarkAll(es, dex, to) + (if Mentions(es, to) then [] else [Event(Some(dex), to, None, None, 0, 0)])
  }

  /** From es to fs exactly the events of the address are marked with the dex, and there is
      one: the old events keep everything but that, and a new one is empty. */
  ghost predicate Marked(es: seq<Event>, fs: seq<Event>, dex: Dex, to: Address) {
    && |fs| == |es| + (if Mentions(es, to) then 0 else 1)
    && (forall k :: 0 <= k < |fs| && fs[k].address == to ==> fs[k].dex == Some(dex))
    && (exists k :: 0 <= k < |fs| && fs[k].address == to)
    && (forall k :: 0 <= k < |es| ==>
          && fs[k].address == es[k].address && fs[k].tokenIn == es[k].tokenIn && fs[k].tokenOut == es[k].tokenOut
          && fs[k].amountIn == es[k].amountIn && fs[k].amountOut == es[k].amountOut
          && (es[k].address != to ==> fs[k].dex == es[k].dex))
    && (forall k :: |es| <= k < |fs| ==> fs[k] == Event(Some(dex), to, None, None, 0, 0))
  }

  lemma {:induction false} SwapMarks(es: seq<Event>, dex: Dex, to: Address)
    ensures Marked(es, RecordSwap(es, dex, to), dex, to)
  {
    var fs := RecordSwap(es, dex, to);
    if Mentions(es, to) {
      var k :| 0 <= k < |es| && es[k].address == to;
      assert fs[k].address == to;
    } else {
      assert fs[|es|].address == to;
    }
  }

  /** From es to fs a transfer is recorded: every event that takes it is updated as Take says,
      no other one changes, and each side nothing took opens a new event. */
  ghost predicate Transferred(es: seq<Event>, fs: seq<Event>, sender: Address, to: Address, recipient: Address,
                              value: int)
  {
    var gained, lost := Event(None, recipient, Some(to), None, value, 0), Event(None, sender, None, Some(to), 0, value);
    var opensIn := forall k :: 0 <= k < |es| ==> !TakesIn(es[k], sender, to, recipient);
    var opensOut := forall k :: 0 <= k < |es| ==> !TakesOut(es[k], sender, to, recipient);
    && |es| <= |fs|
    && fs[|es|..] == (if opensIn then [gained] else []) + (if opensOut then [lost] else [])
    && forall k :: 0 <= k < |es| ==> TookPart(es[k], fs[k], sender, to, recipient, value)
  }

  /** What a transfer does to one event. */
  ghost predicate TookPart(e: Event, f: Event, sender: Address, to: Address, recipient: Address, value: int) {
    if TakesIn(e, sender, to, recipient) then
      if FreeFor(e.tokenIn, to) then f == e.(tokenIn := Some(to), amountIn := e.amountIn + value)
      else Settles(e, f, e.amountIn, e.amountOut - value)
    else if TakesOut(e, sender, to, recipient) then
      if FreeFor(e.tokenOut, to) then f == e.(tokenOut := Some(to), amountOut := e.amountOut + value)
      else Settles(e, f, e.amountIn - value, e.amountOut)
    else f == e
  }

  lemma {:induction false} UpdateTakesPart(e: Event, sender: Address, to: Address, recipient: Address, value: int)
    ensures var (f, hit) := Update(e, sender, to, recipient, value);
            && TookPart(e, f, sender, to, recipient, value)
            && (hit == AsRecipient <==> TakesIn(e, sender, to, recipient))
            && (hit == AsSender <==> TakesOut(e, sender, to, recipient))
  {
  }

  lemma {:induction false} HitsMeans(es: seq<Event>, sender: Address, to: Address, recipient: Address)
    ensures Hits(es, sender, to, recipient, AsRecipient) == 0
       <==> forall k :: 0 <= k < |es| ==> !TakesIn(es[k], sender, to, recipient)
    ensures Hits(es, sender, to, recipient, AsSender) == 0
       <==> forall k :: 0 <= k < |es| ==> !TakesOut(es[k], sender, to, recipient)
  {
    hide Update, TakesIn, TakesOut;
    if es != [] {
      var init, e := es[..|es| - 1], es[|es| - 1];
      HitsMeans(init, sender, to, recipient);
      UpdateTakesPart(e, sender, to, recipient, 0);
      assert forall k :: 0 <= k < |init| ==> es[k] == init[k];
    }
  }

  lemma {:induction false} TransferIs(es: seq<Event>, sender: Address, to: Address, recipient: Address, value: int)
    ensures Transferred(es, RecordTransfer(es, sender, to, recipient, value), sender, to, recipient, value)
  {
    HitsMeans(es, sender, to, recipient);
    hide Update, TakesIn, TakesOut, TookPart, Hits;
    forall k | 0 <= k < |es|
      ensures TookPart(es[k], RecordTransfer(es, sender, to, recipient, value)[k], sender, to, recipient, value)
    {
      UpdateTakesPart(es[k], sender, to, recipient, value);
    }
  }

  // ----- the call tree -----

  /** What the input of a call asks for, by its selector; amounts are unsigned words. */
  datatype Input =
    | SwapV2
    | SwapBakery
    | SwapV3
    | Transfer(recipient: Address, value: nat)
    | TransferFrom(sender: Address, recipient: Address, value: nat)
    | Other

  datatype Call = Call(caller: Address, to: Address, input: Input, calls: seq<Call>)

  /** One thing the walk records. */
  datatype Action =
    | SwapOn(dex: Dex, pool: Address)
    | Move(sender: Address, token: Address, recipient: Address, amount: int)

  predicate MovesValue(c: Call) {
    (c.input.Transfer? || c.input.TransferFrom?) && 0 < c.input.value
  }

  function OwnActions(c: Call): seq<Action> {
    match c.input
    case SwapV2 => [SwapOn(UniswapV2, c.to)]
    case SwapBakery => [SwapOn(BakerySwap, c.to)]
    case SwapV3 => [SwapOn(UniswapV3, c.to)]
    case Transfer(recipient, value) => if 0 < value then [Move(c.caller, c.to, recipient, value)] else []
    case TransferFrom(sender, recipient, value) => if 0 < value then [Move(sender, c.to, recipient, value)] else []
    case Other => []
  }

  /** The actions of a call tree in the order of the calls; what happens inside a
      transfer is not looked at. */
  ghost function Actions(c: Call): seq<Action>
    decreases c
  {
    OwnActions(c) + (if MovesValue(c) then [] else ActionsOfAll(c.calls))
  }

  ghost function ActionsOfAll(cs: seq<Call>): seq<Action>
    decreases cs
  {
    if cs == [] then [] else ActionsOfAll(cs[..|cs| - 1]) + Actions(cs[|cs| - 1])
  }

  ghost function Perform(es: seq<Event>, a: Action): seq<Event> {
    match a
    case SwapOn(dex, pool) => RecordSwap(es, dex, pool)
    case Move(sender, token, recipient, amount) => RecordTransfer(es, sender, token, recipient, amount)
  }

  ghost function PerformAll(es: seq<Event>, actions: seq<Action>): seq<Event> {
    if actions == [] then es else Perform(PerformAll(es, actions[..|actions| - 1]), actions[|actions| - 1])
  }

  lemma {:induction false} PerformJoined(es: seq<Event>, first: seq<Action>, second: seq<Action>)
    ensures PerformAll(es, first + second) == PerformAll(PerformAll(es, first), second)
  {
    if second == [] {
      assert first + second == first;
    } else {
      var all := first + second;
      assert all[..|all| - 1] == first + second[..|second| - 1];
      PerformJoined(es, first, second[..|second| - 1]);
    }
  }

  // ----- the events as objects -----

  class SwapEvent {
    var dex: Option<Dex>
    const address: Address
    var tokenIn: Option<Address>
    var tokenOut: Option<Address>
    var amountIn: int
    var amountOut: int

    constructor (dex: Option<Dex>, address: Address, tokenIn: Option<Address>, tokenOut: Option<Address>,
                 amountIn: int, amountOut: int)
      ensures Value() == Event(dex, address, tokenIn, tokenOut, amountIn, amountOut)
    {
      this.dex, this.address, this.tokenIn, this.tokenOut := dex, address, tokenIn, tokenOut;
      this.amountIn, this.amountOut := amountIn, amountOut;
    }

    function Value(): Event
      reads this
    {
      Event(dex, address, tokenIn, tokenOut, amountIn, amountOut)
    }

    method TurnIfMinus()
      modifies this
      ensures Value() == SwapInOutIfMinus(old(Value()))
      ensures Settles(old(Value()), Value(), old(amountIn), old(amountOut))
    {
      if amountIn < 0 || amountOut < 0 {
        tokenIn, tokenOut := tokenOut, tokenIn;
        amountIn, amountOut := -amountOut, -amountIn;
      }
    }

    /** One round of the loop over the events: an event that can take the transfer takes it
        on one side. If the side is free or holds the token, the value is added there; if
        it is the other side that holds the token, the value is taken off, and the sides
        change places when an amount falls below zero. Its flow of the token moves by the
        value and that of no other token moves. */
    method Take(sender: Address, to: Address, recipient: Address, value: int) returns (hit: Hit)
      modifies this
      ensures (Value(), hit) == Update(old(Value()), sender, to, recipient, value)
      ensures hit == AsRecipient <==> TakesIn(old(Value()), sender, to, recipient)
      ensures hit == AsSender <==> TakesOut(old(Value()), sender, to, recipient)
      ensures TookPart(old(Value()), Value(), sender, to, recipient, value)
      ensures old(SettledEvent(Value())) ==> SettledEvent(Value())
      ensures old(SettledEvent(Value())) ==> forall token ::
                Flow(Value(), token) == Flow(old(Value()), token) + Gain(hit, to, value, token)
    {
      hide TakesIn, TakesOut, TookPart, Settles, Flow, SettledEvent;
      ghost var was := Value();
      UpdateTakesPart(was, sender, to, recipient, value);
      hit := Missed;
      if address == recipient && (tokenIn == None || tokenIn == Some(to)) {
        tokenIn := Some(to);
        amountIn := amountIn + value;
        hit := AsRecipient;
      } else if address == sender && (tokenOut == None || tokenOut == Some(to)) {
        tokenOut := Some(to);
        amountOut := amountOut + value;
        hit := AsSender;
      } else if address == recipient && tokenOut == Some(to) {
        amountOut := amountOut - value;
        TurnIfMinus();
        hit := AsRecipient;
      } else if address == sender && tokenIn == Some(to) {
        amountIn := amountIn - value;
        TurnIfMinus();
        hit := AsSender;
      }
      assert (Value(), hit) == Update(was, sender, to, recipient, value);
      hide Update;
      if SettledEvent(was) {
        UpdateFlow(was, sender, to, recipient, value, to);
        forall token ensures Flow(Value(), token) == Flow(was, token) + Gain(hit, to, value, token) {
          UpdateFlow(was, sender, to, recipient, value, token);
        }
      }
    }
  }

  ghost function Values(events: seq<SwapEvent>): (es: seq<Event>)
    reads events
    ensures |es| == |events| && forall k :: 0 <= k < |events| ==> es[k] == events[k].Value()
  {
    seq(|events|, k requires 0 <= k < |events| reads events => events[k].Value())
  }

  ghost predicate Distinct(events: seq<SwapEvent>) {
    forall i, j :: 0 <= i < j < |events| ==> events[i] != events[j]
  }

  class SwapEvents {
    var events: seq<SwapEvent>

    constructor ()
      ensures events == []
    {
      events := [];
    }

    /** A new event at the end of the list. */
    method Append(dex: Option<Dex>, address: Address, tokenIn: Option<Address>, tokenOut: Option<Address>,
                  amountIn: int, amountOut: int)
      requires Distinct(events)
      modifies this
      ensures Grown(old(events), events) && |events| == |old(events)| + 1 && fresh(events[|old(events)|])
      ensures Values(events) == old(Values(events)) + [Event(dex, address, tokenIn, tokenOut, amountIn, amountOut)]
    {
      var e := new SwapEvent(dex, address, tokenIn, tokenOut, amountIn, amountOut);
      events := events + [e];
    }

    /** The loop over the events; the two answers say whether a side was found. */
    method TakeAll(sender: Address, to: Address, recipient: Address, value: int)
      returns (recipientExist: bool, senderExist: bool)
      requires Distinct(events)
      modifies events
      ensures Values(events) == UpdateAll(old(Values(events)), sender, to, recipient, value)
      ensures recipientExist <==> Hits(old(Values(events)), sender, to, recipient, AsRecipient) != 0
      ensures senderExist <==> Hits(old(Values(events)), sender, to, recipient, AsSender) != 0
    {
      hide Hits, Update;
      ghost var was := Values(events);
      recipientExist, senderExist := false, false;
      NoHits(sender, to, recipient);
      assert was[..0] == [];
      for i := 0 to |events|
        invariant forall k :: 0 <= k < i ==> events[k].Value() == Update(was[k], sender, to, recipient, value).0
        invariant forall k :: i <= k < |events| ==> events[k].Value() == was[k]
        invariant recipientExist <==> Hits(was[..i], sender, to, recipient, AsRecipient) != 0
        invariant senderExist <==> Hits(was[..i], sender, to, recipient, AsSender) != 0
      {
        var hit := events[i].Take(sender, to, recipient, value);
        if hit == AsRecipient { recipientExist := true; }
        if hit == AsSender { senderExist := true; }
        HitsSnoc(was[..i], was[i], sender, to, recipient);
        assert was[..i + 1] == was[..i] + [was[i]];
        SameHit(was[i], sender, to, recipient, value);
      }
      assert was[..|events|] == was;
    }

    method SetTransferEvent(sender: Address, to: Address, recipient: Address, value: int)
      requires Distinct(events)
      modifies this, events
      ensures Grown(old(events), events) && forall k :: |old(events)| <= k < |events| ==> fresh(events[k])
      ensures Values(events) == RecordTransfer(old(Values(events)), sender, to, recipient, value)
      ensures Transferred(old(Values(events)), Values(events), sender, to, recipient, value)
    {
      TransferIs(Values(events), sender, to, recipient, value);
      hide Transferred;
      var recipientExist, senderExist := TakeAll(sender, to, recipient, value);
      if !recipientExist { Append(None, recipient, Some(to), None, value, 0); }
      if !senderExist { Append(None, sender, None, Some(to), 0, value); }
    }

    method SetSwapEvent(dex: Dex, to: Address)
      requires Distinct(events)
      modifies this, events
      ensures Grown(old(events), events) && forall k :: |old(events)| <= k < |events| ==> fresh(events[k])
      ensures Values(events) == RecordSwap(old(Values(events)), dex, to)
      ensures Marked(old(Values(events)), Values(events), dex, to)
    {
      ghost var was := Values(events);
      var exist := false;
      for i := 0 to |events|
        invariant events == old(events)
        invariant forall k :: 0 <= k < i ==> events[k].Value() == Mark(was[k], dex, to)
        invariant forall k :: i <= k < |events| ==> events[k].Value() == was[k]
        invariant exist <==> Mentions(was[..i], to)
      {
        if events[i].address == to {
          events[i].dex := Some(dex);
          exist := true;
          assert was[..i + 1][i].address == to;
        } else {
          assert forall k :: 0 <= k < i ==> was[..i + 1][k] == was[..i][k];
        }
      }
      assert was[..|events|] == was;
      if !exist { Append(Some(dex), to, None, None, 0, 0); }
      SwapMarks(was, dex, to);
    }

    /** What a call asks for itself. */
    method RecordOwn(c: Call)
      requires Distinct(events)
      modifies this, events
      ensures Grown(old(events), events) && forall k :: |old(events)| <= k < |events| ==> fresh(events[k])
      ensures Values(events) == PerformAll(old(Values(events)), OwnActions(c))
    {
      hide RecordTransfer, RecordSwap;
      match c.input
      case SwapV2 => SetSwapEvent(UniswapV2, c.to);
      case SwapBakery => SetSwapEvent(BakerySwap, c.to);
      case SwapV3 => SetSwapEvent(UniswapV3, c.to);
      case Transfer(recipient, value) => if value > 0 { SetTransferEvent(c.caller, c.to, recipient, value); }
      case TransferFrom(sender, recipient, value) => if value > 0 { SetTransferEvent(sender, c.to, recipient, value); }
      case Other =>
    }

    /** The walk over the call tree. */
    method Search(c: Call)
      requires Distinct(events)
      modifies this, events
      ensures Grown(old(events), events) && forall k :: |old(events)| <= k < |events| ==> fresh(events[k])
      ensures Values(events) == PerformAll(old(Values(events)), Actions(c))
      decreases c
    {
      hide PerformAll;
      ghost var was := Values(events);
      RecordOwn(c);
      if !MovesValue(c) {
        ghost var own := Values(events);
        assert ActionsOfAll(c.calls[..0]) == [];
        NothingPerformed(own);
        for i := 0 to |c.calls|
          invariant Grown(old(events), events) && forall k :: |old(events)| <= k < |events| ==> fresh(events[k])
          invariant Values(events) == PerformAll(own, ActionsOfAll(c.calls[..i]))
        {
          Search(c.calls[i]);
          PerformJoined(own, ActionsOfAll(c.calls[..i]), Actions(c.calls[i]));
          assert c.calls[..i + 1][..i] == c.calls[..i];
        }
        assert c.calls[..|c.calls|] == c.calls;
        PerformJoined(was, OwnActions(c), ActionsOfAll(c.calls));
      } else {
        assert OwnActions(c) + [] == OwnActions(c);
      }
    }
  }

  /** The search as it is called from outside, with an empty list. */
  method SearchDexTransaction(c: Call) returns (found: SwapEvents)
    ensures fresh(found) && Distinct(found.events) && Values(found.events) == PerformAll([], Actions(c))
  {
    found := new SwapEvents();
    found.Search(c);
  }

  /** The list keeps its objects and gains others. */
  ghost predicate Grown(before: seq<SwapEvent>, after: seq<SwapEvent>) {
    before <= after && Distinct(after)
  }

  lemma {:induction false} NothingPerformed(es: seq<Event>)
    ensures PerformAll(es, []) == es
  {
  }

  lemma {:induction false} NoHits(sender: Address, to: Address, recipient: Address)
    ensures Hits([], sender, to, recipient, AsRecipient) == 0 == Hits([], sender, to, recipient, AsSender)
  {
  }

  lemma {:induction false} HitsSnoc(es: seq<Event>, e: Event, sender: Address, to: Address, recipient: Address)
    ensures var hit := Update(e, sender, to, recipient, 0).1;
            && Hits(es + [e], sender, to, recipient, AsRecipient)
                 == Hits(es, sender, to, recipient, AsRecipient) + (if hit == AsRecipient then 1 else 0)
            && Hits(es + [e], sender, to, recipient, AsSender)
                 == Hits(es, sender, to, recipient, AsSender) + (if hit == AsSender then 1 else 0)
  {
    assert (es + [e])[..|es|] == es;
  }

  lemma {:induction false} SameHit(e: Event, sender: Address, to: Address, recipient: Address, value: int)
    ensures Update(e, sender, to, recipient, value).1 == Update(e, sender, to, recipient, 0).1
  {
  }

  // ----- what the events add up to -----

  /** What one event says flowed in of a token, less what flowed out. */
  function Flow(e: Event, token: Address): int {
    (if e.tokenIn == Some(token) then e.amountIn else 0) - (if e.tokenOut == Some(token) then e.amountOut else 0)
  }

  /** The recorded net inflow of a token at an address. */
  function Net(es: seq<Event>, address: Address, token: Address): int {
    if es == [] then 0
    else
      var e := es[|es| - 1];
      Net(es[..|es| - 1], address, token) + (if e.address == address then Flow(e, token) else 0)
  }

  /** The recorded net inflow of a token over all addresses. */
  function Total(es: seq<Event>, token: Address): int {
    if es == [] then 0 else Total(es[..|es| - 1], token) + Flow(es[|es| - 1], token)
  }

  /** A side without a token has no amount. */
  ghost predicate Settled(es: seq<Event>) {
    forall k :: 0 <= k < |es| ==> SettledEvent(es[k])
  }

  ghost predicate SettledEvent(e: Event) {
    (e.tokenIn == None ==> e.amountIn == 0) && (e.tokenOut == None ==> e.amountOut == 0)
  }

  /** What taking a transfer on one side adds to the flow of a token. */
  ghost function Gain(hit: Hit, to: Address, value: int, token: Address): int {
    if token != to then 0 else if hit == AsRecipient then value else if hit == AsSender then -value else 0
  }

  /** In each of its branches an event's update moves its flow by the value. */
  lemma {:induction false} UpdateFlow(e: Event, sender: Address, to: Address, recipient: Address, value: int,
                                      token: Address)
    requires SettledEvent(e)
    ensures var (f, hit) := Update(e, sender, to, recipient, value);
            && SettledEvent(f) && f.address == e.address
            && (hit == AsRecipient <==> TakesIn(e, sender, to, recipient))
            && (hit == AsSender <==> TakesOut(e, sender, to, recipient))
            && (hit == AsRecipient ==> e.address == recipient)
            && (hit == AsSender ==> e.address == sender)
            && Flow(f, token) == Flow(e, token) + Gain(hit, to, value, token)
  {
  }

  lemma {:induction false} NetSnoc(es: seq<Event>, e: Event, address: Address, token: Address)
    ensures Net(es + [e], address, token)
         == Net(es, address, token) + (if e.address == address then Flow(e, token) else 0)
    ensures Total(es + [e], token) == Total(es, token) + Flow(e, token)
  {
    assert (es + [e])[..|es|] == es;
  }

  /** The value entered so many times for each side, seen at one address. */
  function Entered(a: Action, nr: int, ns: int, address: Address, token: Address): int {
    if a.SwapOn? || token != a.token then 0
    else (if address == a.recipient then a.amount * nr else 0) - (if address == a.sender then a.amount * ns else 0)
  }

  /** The same over all addresses. */
  function EnteredInAll(a: Action, nr: int, ns: int, token: Address): int {
    if a.SwapOn? || token != a.token then 0 else a.amount * nr - a.amount * ns
  }

  lemma {:induction false} EnteredOnce(a: Action, nr: int, ns: int, address: Address, token: Address)
    requires a.Move?
    ensures Entered(a, nr + 1, ns, address, token)
         == Entered(a, nr, ns, address, token) + (if address == a.recipient && token == a.token then a.amount else 0)
    ensures Entered(a, nr, ns + 1, address, token)
         == Entered(a, nr, ns, address, token) - (if address == a.sender && token == a.token then a.amount else 0)
    ensures EnteredInAll(a, nr + 1, ns, token)
         == EnteredInAll(a, nr, ns, token) + (if token == a.token then a.amount else 0)
    ensures EnteredInAll(a, nr, ns + 1, token)
         == EnteredInAll(a, nr, ns, token) - (if token == a.token then a.amount else 0)
  {
    assert a.amount * (nr + 1) == a.amount * nr + a.amount;
    assert a.amount * (ns + 1) == a.amount * ns + a.amount;
  }

  lemma {:induction false} EnteredNever(a: Action, address: Address, token: Address)
    ensures Entered(a, 0, 0, address, token) == 0 == EnteredInAll(a, 0, 0, token)
  {
  }

  lemma {:induction false} UpdateAllNet(es: seq<Event>, sender: Address, to: Address, recipient: Address, value: int,
                                        address: Address, token: Address)
    requires Settled(es)
    ensures var us, a := UpdateAll(es, sender, to, recipient, value), Move(sender, to, recipient, value);
            var nr, ns := Hits(es, sender, to, recipient, AsRecipient), Hits(es, sender, to, recipient, AsSender);
            && Settled(us)
            && Net(us, address, token) == Net(es, address, token) + Entered(a, nr, ns, address, token)
            && Total(us, token) == Total(es, token) + EnteredInAll(a, nr, ns, token)
  {
    hide Update, Flow, Net, Total, Hits, UpdateAll, Entered, EnteredInAll, Settled, SettledEvent;
    var a := Move(sender, to, recipient, value);
    if es == [] {
      EnteredNever(a, address, token);
      NothingUpdated(sender, to, recipient, value, address, token);
    } else {
      var init, e := es[..|es| - 1], es[|es| - 1];
      assert es == init + [e];
      SettledSnoc(init, e);
      UpdateAllNet(init, sender, to, recipient, value, address, token);
      var vs, f := UpdateAll(init, sender, to, recipient, value), Update(e, sender, to, recipient, value).0;
      UpdateAllSnoc(init, e, sender, to, recipient, value);
      UpdateFlow(e, sender, to, recipient, value, token);
      SettledSnoc(vs, f);
      SameHit(e, sender, to, recipient, value);
      HitsSnoc(init, e, sender, to, recipient);
      OneMoreEvent(init, vs, e, f, a, Update(e, sender, to, recipient, value).1,
                   Hits(init, sender, to, recipient, AsRecipient), Hits(init, sender, to, recipient, AsSender),
                   address, token);
    }
  }

  lemma {:induction false} NothingUpdated(sender: Address, to: Address, recipient: Address, value: int,
                                          address: Address, token: Address)
    ensures UpdateAll([], sender, to, recipient, value) == [] && Settled([])
    ensures Hits([], sender, to, recipient, AsRecipient) == 0 == Hits([], sender, to, recipient, AsSender)
  {
  }

  lemma {:induction false} UpdateAllSnoc(es: seq<Event>, e: Event, sender: Address, to: Address, recipient: Address,
                                         value: int)
    ensures UpdateAll(es + [e], sender, to, recipient, value)
         == UpdateAll(es, sender, to, recipient, value) + [Update(e, sender, to, recipient, value).0]
  {
  }

  lemma {:induction false} SettledSnoc(es: seq<Event>, e: Event)
    ensures Settled(es + [e]) <==> Settled(es) && SettledEvent(e)
  {
    if Settled(es + [e]) {
      assert (es + [e])[|es|] == e;
      forall k | 0 <= k < |es| ensures SettledEvent(es[k]) { assert (es + [e])[k] == es[k]; }
    }
  }

  lemma {:induction false} OneMoreEvent(es: seq<Event>, us: seq<Event>, e: Event, f: Event, a: Action, hit: Hit,
                                        nr: nat, ns: nat,
                                        address: Address, token: Address)
    requires a.Move? && f.address == e.address
    requires (hit == AsRecipient ==> e.address == a.recipient) && (hit == AsSender ==> e.address == a.sender)
    requires Flow(f, token) == Flow(e, token) + Gain(hit, a.token, a.amount, token)
    requires Net(us, address, token) == Net(es, address, token) + Entered(a, nr, ns, address, token)
    requires Total(us, token) == Total(es, token) + EnteredInAll(a, nr, ns, token)
    ensures var mr, ms := nr + (if hit == AsRecipient then 1 else 0), ns + (if hit == AsSender then 1 else 0);
            && Net(us + [f], address, token) == Net(es + [e], address, token) + Entered(a, mr, ms, address, token)
            && Total(us + [f], token) == Total(es + [e], token) + EnteredInAll(a, mr, ms, token)
  {
    hide Flow, Net, Total, Entered, EnteredInAll;
    NetSnoc(us, f, address, token);
    NetSnoc(es, e, address, token);
    EnteredOnce(a, nr, ns, address, token);
  }

  /** The times a side of a transfer is entered: once in a new event if no event takes it. */
  function Entries(hits: nat): nat {
    if hits == 0 then 1 else hits
  }

  /** The exact effect of recording a transfer: the value is entered once for every
      event that takes it, for the recipient and for the sender alike. */
  lemma {:induction false} TransferNet(es: seq<Event>, sender: Address, to: Address, recipient: Address, value: int,
                                       address: Address, token: Address)
    requires Settled(es)
    ensures var rs, a := RecordTransfer(es, sender, to, recipient, value), Move(sender, to, recipient, value);
            var nr := Entries(Hits(es, sender, to, recipient, AsRecipient));
            var ns := Entries(Hits(es, sender, to, recipient, AsSender));
            && Settled(rs)
            && Net(rs, address, token) == Net(es, address, token) + Entered(a, nr, ns, address, token)
            && Total(rs, token) == Total(es, token) + EnteredInAll(a, nr, ns, token)
  {
    UpdateAllNet(es, sender, to, recipient, value, address, token);
    var us, a := UpdateAll(es, sender, to, recipient, value), Move(sender, to, recipient, value);
    var nr, ns := Hits(es, sender, to, recipient, AsRecipient), Hits(es, sender, to, recipient, AsSender);
    var gained, lost := Event(None, recipient, Some(to), None, value, 0), Event(None, sender, None, Some(to), 0, value);
    var rs := us + (if nr == 0 then [gained] else []);
    assert us + [] == us && rs + [] == rs;
    assert RecordTransfer(es, sender, to, recipient, value) == rs + (if ns == 0 then [lost] else []);
    NewSides(to, value, sender, recipient, token);
    hide Update, Flow, Net, Total, Hits, UpdateAll, Entered, EnteredInAll, RecordTransfer;
    if nr == 0 {
      NetSnoc(us, gained, address, token);
      EnteredOnce(a, 0, ns, address, token);
    }
    assert Net(rs, address, token) == Net(es, address, token) + Entered(a, Entries(nr), ns, address, token)
        && Total(rs, token) == Total(es, token) + EnteredInAll(a, Entries(nr), ns, token);
    if ns == 0 {
      NetSnoc(rs, lost, address, token);
      EnteredOnce(a, Entries(nr), 0, address, token);
    }
  }

  lemma {:induction false} NewSides(to: Address, value: int, sender: Address, recipient: Address, token: Address)
    ensures Flow(Event(None, recipient, Some(to), None, value, 0), token) == if token == to then value else 0
    ensures Flow(Event(None, sender, None, Some(to), 0, value), token) == if token == to then -value else 0
  {
  }

  /** What an action really moves. */
  function Moved(a: Action, address: Address, token: Address): int {
    if a.SwapOn? || token != a.token then 0
    else (if address == a.recipient then a.amount else 0) - (if address == a.sender then a.amount else 0)
  }

  lemma {:induction false} EnteredAsMoved(a: Action, nr: int, ns: int, address: Address, token: Address)
    requires a.Move? && (a.amount == 0 || (if a.sender == a.recipient then nr == ns else nr == 1 && ns == 1))
    ensures Entered(a, nr, ns, address, token) == Moved(a, address, token)
    ensures EnteredInAll(a, nr, ns, token) == 0
  {
  }

  lemma {:induction false} EnteredUnlikeMoved(a: Action, nr: int, ns: int)
    requires a.Move? && !(a.amount == 0 || (if a.sender == a.recipient then nr == ns else nr == 1 && ns == 1))
    ensures Entered(a, nr, ns, a.sender, a.token) != Moved(a, a.sender, a.token)
         || Entered(a, nr, ns, a.recipient, a.token) != Moved(a, a.recipient, a.token)
  {
    if a.sender == a.recipient {
      Scaled(a.amount, nr, ns);
    } else if nr != 1 {
      Scaled(a.amount, nr, 1);
    } else {
      Scaled(a.amount, ns, 1);
    }
  }

  lemma {:induction false} Scaled(value: int, m: int, n: int)
    requires value != 0 && m != n
    ensures value * m != value * n
  {
    assert value * m - value * n == value * (m - n);
  }

  /** When recording an action changes every address's net inflow of every token by
      what the action moves. */
  ghost predicate Exact(es: seq<Event>, a: Action) {
    forall address, token ::
      Net(Perform(es, a), address, token) == Net(es, address, token) + Moved(a, address, token)
  }

  /** No side of the transfer is entered twice, or nothing is moved, or it is moved back to
      where it came from, entered as often in as out. */
  ghost predicate EntersOnce(es: seq<Event>, a: Action) {
    a.Move? ==>
      var nr := Entries(Hits(es, a.sender, a.token, a.recipient, AsRecipient));
      var ns := Entries(Hits(es, a.sender, a.token, a.recipient, AsSender));
      a.amount == 0 || (if a.sender == a.recipient then nr == ns else nr == 1 && ns == 1)
  }

  /** Recording a transfer is exact precisely when it enters every side once. */
  lemma {:induction false} TransferExactWhen(es: seq<Event>, sender: Address, to: Address, recipient: Address,
                                             value: int)
    requires Settled(es)
    ensures Exact(es, Move(sender, to, recipient, value)) <==> EntersOnce(es, Move(sender, to, recipient, value))
  {
    var nr := Entries(Hits(es, sender, to, recipient, AsRecipient));
    var ns := Entries(Hits(es, sender, to, recipient, AsSender));
    var a, rs := Move(sender, to, recipient, value), RecordTransfer(es, sender, to, recipient, value);
    assert rs == Perform(es, a);
    TransferNet(es, sender, to, recipient, value, sender, to);
    TransferNet(es, sender, to, recipient, value, recipient, to);
    hide Net, Perform, RecordTransfer, Entries, Hits, Entered, EnteredInAll, Moved, Total;
    if value == 0 || (if sender == recipient then nr == ns else nr == 1 && ns == 1) {
      forall address, token
        ensures Net(Perform(es, a), address, token) == Net(es, address, token) + Moved(a, address, token)
      {
        TransferNet(es, sender, to, recipient, value, address, token);
        EnteredAsMoved(a, nr, ns, address, token);
      }
    } else {
      EnteredUnlikeMoved(a, nr, ns);
    }
  }

  // ----- whole runs -----

  lemma {:induction false} SwapNet(es: seq<Event>, dex: Dex, to: Address, address: Address, token: Address)
    requires Settled(es)
    ensures var rs := RecordSwap(es, dex, to);
            Settled(rs) && Net(rs, address, token) == Net(es, address, token) && Total(rs, token) == Total(es, token)
  {
    MarkAllNet(es, dex, to, address, token);
    var ms, fresh' := MarkAll(es, dex, to), Event(Some(dex), to, None, None, 0, 0);
    hide Net, Total;
    if Mentions(es, to) {
      assert ms + [] == ms;
    } else {
      NetSnoc(ms, fresh', address, token);
      SettledSnoc(ms, fresh');
    }
  }

  lemma {:induction false} MarkAllNet(es: seq<Event>, dex: Dex, to: Address, address: Address, token: Address)
    requires Settled(es)
    ensures var ms := MarkAll(es, dex, to);
            Settled(ms) && Net(ms, address, token) == Net(es, address, token) && Total(ms, token) == Total(es, token)
  {
    if es != [] {
      var init, e := es[..|es| - 1], es[|es| - 1];
      assert es == init + [e];
      SettledSnoc(init, e);
      MarkAllNet(init, dex, to, address, token);
      assert MarkAll(es, dex, to) == MarkAll(init, dex, to) + [Mark(e, dex, to)];
      NetSnoc(MarkAll(init, dex, to), Mark(e, dex, to), address, token);
      SettledSnoc(MarkAll(init, dex, to), Mark(e, dex, to));
    }
  }

  /** No address has two events. */
  ghost predicate OneEach(es: seq<Event>) {
    forall i, j :: 0 <= i < j < |es| ==> es[i].address != es[j].address
  }

  lemma {:induction false} OneEachSnoc(es: seq<Event>, e: Event)
    ensures OneEach(es + [e]) <==> OneEach(es) && !Mentions(es, e.address)
  {
    var all := es + [e];
    if OneEach(all) {
      assert forall k :: 0 <= k < |es| ==> all[k] == es[k];
      assert all[|es|].address == e.address;
    }
  }

  /** An address without an event takes nothing. */
  lemma {:induction false} NoEventNoHit(es: seq<Event>, sender: Address, to: Address, recipient: Address)
    ensures !Mentions(es, recipient) ==> Hits(es, sender, to, recipient, AsRecipient) == 0
    ensures !Mentions(es, sender) ==> Hits(es, sender, to, recipient, AsSender) == 0
  {
    if es != [] {
      var init, e := es[..|es| - 1], es[|es| - 1];
      NoEventNoHit(init, sender, to, recipient);
      assert es[|init|] == e && forall k :: 0 <= k < |init| ==> es[k] == init[k];
      MentionsInit(es, sender);
      MentionsInit(es, recipient);
    }
  }

  lemma {:induction false} MentionsInit(es: seq<Event>, address: Address)
    requires es != []
    ensures Mentions(es, address) <==> Mentions(es[..|es| - 1], address) || es[|es| - 1].address == address
  {
    var init := es[..|es| - 1];
    if Mentions(init, address) {
      var k :| 0 <= k < |init| && init[k].address == address;
      assert es[k].address == address;
    }
    if es[|es| - 1].address == address { assert Mentions(es, address); }
    if Mentions(es, address) && es[|es| - 1].address != address {
      var k :| 0 <= k < |es| && es[k].address == address;
      assert init[k].address == address;
    }
  }

  /** With one event an address, each side is entered once. */
  lemma {:induction false} OneEachOneHit(es: seq<Event>, sender: Address, to: Address, recipient: Address)
    requires OneEach(es)
    ensures Hits(es, sender, to, recipient, AsRecipient) <= 1 && Hits(es, sender, to, recipient, AsSender) <= 1
  {
    if es != [] {
      var init, e := es[..|es| - 1], es[|es| - 1];
      assert es == init + [e];
      OneEachSnoc(init, e);
      OneEachOneHit(init, sender, to, recipient);
      NoEventNoHit(init, sender, to, recipient);
    }
  }

  /** A transfer leaves one event an address exactly when no address with an event is
      given a second one, and a transfer to oneself does not open two. */
  lemma {:induction false} OneEachAfter(es: seq<Event>, sender: Address, to: Address, recipient: Address, value: int)
    requires OneEach(es)
    ensures var nr := Hits(es, sender, to, recipient, AsRecipient);
            var ns := Hits(es, sender, to, recipient, AsSender);
            OneEach(RecordTransfer(es, sender, to, recipient, value))
            <==> && (Mentions(es, recipient) ==> 0 < nr)
                 && (Mentions(es, sender) ==> 0 < ns)
                 && (sender == recipient ==> 0 < nr || 0 < ns)
  {
    var nr, ns := Hits(es, sender, to, recipient, AsRecipient), Hits(es, sender, to, recipient, AsSender);
    var us := UpdateAll(es, sender, to, recipient, value);
    SameAddresses(es, us, sender, to, recipient, value);
    NoEventNoHit(es, sender, to, recipient);
    var gained, lost := Event(None, recipient, Some(to), None, value, 0), Event(None, sender, None, Some(to), 0, value);
    var rs := us + (if nr == 0 then [gained] else []);
    assert us + [] == us && rs + [] == rs;
    assert RecordTransfer(es, sender, to, recipient, value) == rs + (if ns == 0 then [lost] else []);
    hide Hits, UpdateAll, OneEach, Mentions, RecordTransfer;
    if nr == 0 {
      OneEachSnoc(us, gained);
      MentionsInit(rs, sender);
      assert rs[..|rs| - 1] == us;
    }
    if ns == 0 { OneEachSnoc(rs, lost); }
  }

  lemma {:induction false} SameAddresses(es: seq<Event>, us: seq<Event>, sender: Address, to: Address,
                                         recipient: Address, value: int)
    requires us == UpdateAll(es, sender, to, recipient, value)
    ensures OneEach(us) <==> OneEach(es)
    ensures Mentions(us, sender) <==> Mentions(es, sender)
    ensures Mentions(us, recipient) <==> Mentions(es, recipient)
  {
    assert forall k :: 0 <= k < |es| ==> us[k].address == es[k].address;
  }

  function MovedAll(actions: seq<Action>, address: Address, token: Address): int {
    if actions == [] then 0
    else MovedAll(actions[..|actions| - 1], address, token) + Moved(actions[|actions| - 1], address, token)
  }

  /** Before each action of the run, no address has two events. */
  ghost predicate OneEachThroughout(es: seq<Event>, actions: seq<Action>) {
    actions != [] ==>
      OneEachThroughout(es, actions[..|actions| - 1]) && OneEach(PerformAll(es, actions[..|actions| - 1]))
  }

  /** As long as no address gains a second event, every address's recorded inflow less
      outflow of every token is what the run really moved, and nothing is lost or made. */
  lemma {:induction false} RunAccounts(es: seq<Event>, actions: seq<Action>, address: Address, token: Address)
    requires Settled(es) && OneEachThroughout(es, actions)
    ensures var fs := PerformAll(es, actions);
            && Settled(fs)
            && Net(fs, address, token) == Net(es, address, token) + MovedAll(actions, address, token)
            && Total(fs, token) == Total(es, token)
  {
    hide Net, Total, Perform, Moved, Settled, OneEach;
    if actions != [] {
      var init, a := actions[..|actions| - 1], actions[|actions| - 1];
      RunAccounts(es, init, address, token);
      StepAccounts(PerformAll(es, init), a, address, token);
    }
  }

  lemma {:induction false} StepAccounts(es: seq<Event>, a: Action, address: Address, token: Address)
    requires Settled(es) && OneEach(es)
    ensures var fs := Perform(es, a);
            && Settled(fs)
            && Net(fs, address, token) == Net(es, address, token) + Moved(a, address, token)
            && Total(fs, token) == Total(es, token)
  {
    hide Net, Total, Hits, Settled, OneEach, RecordSwap, RecordTransfer, Entered, EnteredInAll;
    match a
    case SwapOn(dex, pool) => SwapNet(es, dex, pool, address, token);
    case Move(sender, to, recipient, amount) =>
      OneEachOneHit(es, sender, to, recipient);
      TransferNet(es, sender, to, recipient, amount, address, token);
      EnteredAsMoved(a, 1, 1, address, token);
  }

  /** Every address's recorded net inflow of every token has changed by what the run moved. */
  ghost predicate Accounted(es: seq<Event>, actions: seq<Action>) {
    forall address, token ::
      Net(PerformAll(es, actions), address, token) == Net(es, address, token) + MovedAll(actions, address, token)
  }

  ghost predicate AccountedThroughout(es: seq<Event>, actions: seq<Action>) {
    Accounted(es, actions) && (actions != [] ==> AccountedThroughout(es, actions[..|actions| - 1]))
  }

  ghost predicate EntersOnceThroughout(es: seq<Event>, actions: seq<Action>) {
    actions != [] ==>
      var init, last := actions[..|actions| - 1], actions[|actions| - 1];
      EntersOnceThroughout(es, init) && EntersOnce(PerformAll(es, init), last)
  }

  /** The flows are right at every moment of a run exactly when every transfer of the run
      enters its sides once at the moment it is recorded. */
  lemma {:induction false} RunExactWhen(es: seq<Event>, actions: seq<Action>)
    requires Settled(es)
    ensures Settled(PerformAll(es, actions))
    ensures AccountedThroughout(es, actions) <==> EntersOnceThroughout(es, actions)
  {
    hide Net, Perform, Moved, Settled, EntersOnce, Exact;
    if actions != [] {
      var init, a := actions[..|actions| - 1], actions[|actions| - 1];
      RunExactWhen(es, init);
      ExactWhen(PerformAll(es, init), a);
      if Accounted(es, init) { AccountedNext(es, actions); }
    }
  }

  /** A run accounted for so far stays accounted for when its last action is exact. */
  lemma {:induction false} AccountedNext(es: seq<Event>, actions: seq<Action>)
    requires actions != [] && Accounted(es, actions[..|actions| - 1])
    ensures Accounted(es, actions)
       <==> Exact(PerformAll(es, actions[..|actions| - 1]), actions[|actions| - 1])
  {
    var init, a := actions[..|actions| - 1], actions[|actions| - 1];
    var before := PerformAll(es, init);
    assert PerformAll(es, actions) == Perform(before, a);
    hide Net, Perform, Moved, PerformAll;
    if Accounted(es, actions) {
      forall address, token
        ensures Net(Perform(before, a), address, token) == Net(before, address, token) + Moved(a, address, token)
      {
      }
    }
    if Exact(before, a) {
      forall address, token
        ensures Net(PerformAll(es, actions), address, token)
             == Net(es, address, token) + MovedAll(actions, address, token)
      {
      }
    }
  }

  lemma {:induction false} ExactWhen(es: seq<Event>, a: Action)
    requires Settled(es)
    ensures Settled(Perform(es, a)) && (Exact(es, a) <==> EntersOnce(es, a))
  {
    match a
    case SwapOn(dex, pool) =>
      hide Net, Settled, RecordSwap;
      SwapNet(es, dex, pool, 0, 0);
      forall address, token
        ensures Net(Perform(es, a), address, token) == Net(es, address, token) + Moved(a, address, token)
      {
        SwapNet(es, dex, pool, address, token);
      }
    case Move(sender, to, recipient, amount) =>
      hide Net, Settled, RecordTransfer, Exact, EntersOnce;
      TransferNet(es, sender, to, recipient, amount, 0, 0);
      TransferExactWhen(es, sender, to, recipient, amount);
  }

  /** What the transfers of a call tree bring an address of a token, less what they take:
      the token is the contract called, and inside a transfer of value nothing is looked at. */
  ghost function Inflow(c: Call, address: Address, token: Address): int
    decreases c
  {
    match c.input
    case Transfer(recipient, value) =>
      if value == 0 then InflowOfAll(c.calls, address, token)
      else if token != c.to then 0
      else (if address == recipient then value else 0) - (if address == c.caller then value else 0)
    case TransferFrom(sender, recipient, value) =>
      if value == 0 then InflowOfAll(c.calls, address, token)
      else if token != c.to then 0
      else (if address == recipient then value else 0) - (if address == sender then value else 0)
    case _ => InflowOfAll(c.calls, address, token)
  }

  ghost function InflowOfAll(cs: seq<Call>, address: Address, token: Address): int
    decreases cs
  {
    if cs == [] then 0 else InflowOfAll(cs[..|cs| - 1], address, token) + Inflow(cs[|cs| - 1], address, token)
  }

  lemma {:induction false} MovedJoined(first: seq<Action>, second: seq<Action>, address: Address, token: Address)
    ensures MovedAll(first + second, address, token)
         == MovedAll(first, address, token) + MovedAll(second, address, token)
  {
    if second == [] {
      assert first + second == first;
    } else {
      var all := first + second;
      assert all[..|all| - 1] == first + second[..|second| - 1];
      MovedJoined(first, second[..|second| - 1], address, token);
    }
  }

  lemma {:induction false} ActionsMove(c: Call, address: Address, token: Address)
    ensures MovedAll(Actions(c), address, token) == Inflow(c, address, token)
    decreases c
  {
    MovedJoined(OwnActions(c), if MovesValue(c) then [] else ActionsOfAll(c.calls), address, token);
    if !MovesValue(c) { ActionsOfAllMove(c.calls, address, token); }
    var own := OwnActions(c);
    if own != [] { assert own[..0] == []; }
  }

  lemma {:induction false} ActionsOfAllMove(cs: seq<Call>, address: Address, token: Address)
    ensures MovedAll(ActionsOfAll(cs), address, token) == InflowOfAll(cs, address, token)
    decreases cs
  {
    if cs != [] {
      var init, c := cs[..|cs| - 1], cs[|cs| - 1];
      ActionsOfAllMove(init, address, token);
      ActionsMove(c, address, token);
      MovedJoined(ActionsOfAll(init), Actions(c), address, token);
    }
  }

  /** The events a walk over a call tree leaves account for the transfers in the tree. */
  lemma {:induction false} SearchAccounts(c: Call, address: Address, token: Address)
    requires OneEachThroughout([], Actions(c))
    ensures Net(PerformAll([], Actions(c)), address, token) == Inflow(c, address, token)
    ensures Total(PerformAll([], Actions(c)), token) == 0
  {
    RunAccounts([], Actions(c), address, token);
    ActionsMove(c, address, token);
  }

  // ----- which exchange an event is marked with -----

  /** The exchange of the last swap call on an address in a call tree. */
  ghost function LastSwap(c: Call, address: Address): Option<Dex>
    decreases c
  {
    match c.input
    case SwapV2 => Later(if c.to == address then Some(UniswapV2) else None, LastSwapOfAll(c.calls, address))
    case SwapBakery => Later(if c.to == address then Some(BakerySwap) else None, LastSwapOfAll(c.calls, address))
    case SwapV3 => Later(if c.to == address then Some(UniswapV3) else None, LastSwapOfAll(c.calls, address))
    case Transfer(_, value) => if value == 0 then LastSwapOfAll(c.calls, address) else None
    case TransferFrom(_, _, value) => if value == 0 then LastSwapOfAll(c.calls, address) else None
    case Other => LastSwapOfAll(c.calls, address)
  }

  ghost function LastSwapOfAll(cs: seq<Call>, address: Address): Option<Dex>
    decreases cs
  {
    if cs == [] then None else Later(LastSwapOfAll(cs[..|cs| - 1], address), LastSwap(cs[|cs| - 1], address))
  }

  ghost function Later(first: Option<Dex>, second: Option<Dex>): Option<Dex> {
    if second.Some? then second else first
  }

  ghost function LastMark(actions: seq<Action>, address: Address): Option<Dex> {
    if actions == [] then None
    else
      var a := actions[|actions| - 1];
      if a.SwapOn? && a.pool == address then Some(a.dex) else LastMark(actions[..|actions| - 1], address)
  }

  /** The events of an address carry the exchange or none, and if there is one, some event carries it. */
  ghost predicate MarkedWith(es: seq<Event>, address: Address, last: Option<Dex>) {
    && (forall k :: 0 <= k < |es| && es[k].address == address ==> es[k].dex == None || es[k].dex == last)
    && (last.Some? ==> exists k :: 0 <= k < |es| && es[k].address == address && es[k].dex == last)
  }

  lemma {:induction false} SwapKeepsMarks(es: seq<Event>, dex: Dex, to: Address, address: Address, last: Option<Dex>)
    requires MarkedWith(es, address, last)
    ensures MarkedWith(RecordSwap(es, dex, to), address, if to == address then Some(dex) else last)
  {
    SwapMarks(es, dex, to);
    var fs := RecordSwap(es, dex, to);
    hide RecordSwap;
    if to != address && last.Some? {
      var k :| 0 <= k < |es| && es[k].address == address && es[k].dex == last;
      assert fs[k].address == address && fs[k].dex == last;
    }
  }

  lemma {:induction false} TransferKeepsMarks(es: seq<Event>, sender: Address, to: Address, recipient: Address,
                                              value: int, address: Address, last: Option<Dex>)
    requires MarkedWith(es, address, last)
    ensures MarkedWith(RecordTransfer(es, sender, to, recipient, value), address, last)
  {
    var fs := RecordTransfer(es, sender, to, recipient, value);
    forall k | 0 <= k < |es| ensures fs[k].dex == es[k].dex && fs[k].address == es[k].address {
      UpdateKeepsDex(es[k], sender, to, recipient, value);
    }
    if last.Some? {
      var k :| 0 <= k < |es| && es[k].address == address && es[k].dex == last;
      assert fs[k].address == address && fs[k].dex == last;
    }
  }

  lemma {:induction false} UpdateKeepsDex(e: Event, sender: Address, to: Address, recipient: Address, value: int)
    ensures var f := Update(e, sender, to, recipient, value).0; f.dex == e.dex && f.address == e.address
  {
  }

  lemma {:induction false} RunMarks(actions: seq<Action>, address: Address)
    ensures MarkedWith(PerformAll([], actions), address, LastMark(actions, address))
  {
    hide RecordSwap, RecordTransfer, MarkedWith;
    if actions == [] {
      NothingMarked(address);
    } else {
      var init, a := actions[..|actions| - 1], actions[|actions| - 1];
      RunMarks(init, address);
      match a
      case SwapOn(dex, pool) => SwapKeepsMarks(PerformAll([], init), dex, pool, address, LastMark(init, address));
      case Move(sender, token, recipient, amount) =>
        TransferKeepsMarks(PerformAll([], init), sender, token, recipient, amount, address, LastMark(init, address));
    }
  }

  lemma {:induction false} NothingMarked(address: Address)
    ensures MarkedWith([], address, None)
  {
  }

  lemma {:induction false} MarksJoined(first: seq<Action>, second: seq<Action>, address: Address)
    ensures LastMark(first + second, address) == Later(LastMark(first, address), LastMark(second, address))
  {
    if second == [] {
      assert first + second == first;
    } else {
      var all := first + second;
      assert all[..|all| - 1] == first + second[..|second| - 1];
      MarksJoined(first, second[..|second| - 1], address);
    }
  }

  lemma {:induction false} ActionsMark(c: Call, address: Address)
    ensures LastMark(Actions(c), address) == LastSwap(c, address)
    decreases c
  {
    var inner := if MovesValue(c) then [] else ActionsOfAll(c.calls);
    MarksJoined(OwnActions(c), inner, address);
    if !MovesValue(c) { ActionsOfAllMark(c.calls, address); }
    OwnMark(c, address);
    hide OwnActions, LastMark;
  }

  /** What a call is marked with for itself. */
  lemma {:induction false} OwnMark(c: Call, address: Address)
    ensures LastMark([], address) == None
    ensures LastMark(OwnActions(c), address)
         == if c.to != address then None
            else match c.input
              case SwapV2 => Some(UniswapV2)
              case SwapBakery => Some(BakerySwap)
              case SwapV3 => Some(UniswapV3)
              case _ => None
  {
    var own := OwnActions(c);
    if own != [] { assert own[..0] == []; }
  }

  lemma {:induction false} ActionsOfAllMark(cs: seq<Call>, address: Address)
    ensures LastMark(ActionsOfAll(cs), address) == LastSwapOfAll(cs, address)
    decreases cs
  {
    if cs != [] {
      var init, c := cs[..|cs| - 1], cs[|cs| - 1];
      ActionsOfAllMark(init, address);
      ActionsMark(c, address);
      MarksJoined(ActionsOfAll(init), Actions(c), address);
    }
  }

  /** After a walk the events of an address that swap calls were made on carry the exchange of
      the last such call or none, and at least one of them does; an address without swap
      calls has no event that carries any. */
  lemma {:induction false} SearchMarks(c: Call, address: Address)
    ensures MarkedWith(PerformAll([], Actions(c)), address, LastSwap(c, address))
  {
    RunMarks(Actions(c), address);
    ActionsMark(c, address);
  }

  /** Without that, transfers are entered twice: address 1 receives token 10, pays token
      20, receives token 30 and so gets a second event, and when it then pays 2 of token
      10 both its events enter the payment. */
  lemma {:induction false} SecondEventEntersTwice()
    ensures var actions := [Move(2, 10, 1, 5), Move(1, 20, 2, 7), Move(2, 30, 1, 1), Move(1, 10, 3, 2)];
            && Net(PerformAll([], actions), 1, 10) == 1
            && MovedAll(actions, 1, 10) == 3
            && Total(PerformAll([], actions), 10) == -2
  {
    FirstThreeSteps();
    FourthStep();
    var a, b, c, d := Move(2, 10, 1, 5), Move(1, 20, 2, 7), Move(2, 30, 1, 1), Move(1, 10, 3, 2);
    var actions := [a, b, c, d];
    assert actions[..3] == [a, b, c] && [a, b, c][..2] == [a, b] && [a, b][..1] == [a] && [a][..0] == [];
    hide Perform, RecordTransfer, Net, Total;
    assert MovedAll([a], 1, 10) == 5 && MovedAll([a, b], 1, 10) == 5 && MovedAll([a, b, c], 1, 10) == 5;
    assert PerformAll([], []) == [];
    assert PerformAll([], [a]) == Perform([], a);
    assert PerformAll([], [a, b]) == Perform(Perform([], a), b);
    assert PerformAll([], [a, b, c]) == ThreeSteps();
    assert PerformAll([], actions) == Perform(ThreeSteps(), d);
  }

  ghost function TwoEvents(): seq<Event> {
    [Event(None, 1, Some(10), Some(20), 5, 7), Event(None, 2, Some(20), Some(10), 7, 5)]
  }

  ghost function FourEvents(): seq<Event> {
    [Event(None, 1, Some(10), Some(20), 5, 7), Event(None, 2, Some(20), Some(10), 7, 5),
     Event(None, 1, Some(30), None, 1, 0), Event(None, 2, None, Some(30), 0, 1)]
  }

  ghost function ThreeSteps(): seq<Event> {
    Perform(Perform(Perform([], Move(2, 10, 1, 5)), Move(1, 20, 2, 7)), Move(2, 30, 1, 1))
  }

  ghost function OneStep(): seq<Event> {
    [Event(None, 1, Some(10), None, 5, 0), Event(None, 2, None, Some(10), 0, 5)]
  }

  lemma {:induction false} FirstThreeSteps()
    ensures ThreeSteps() == FourEvents()
  {
    FirstStep();
    SecondStep();
    ThirdStep();
  }

  lemma {:induction false} FirstStep()
    ensures RecordTransfer([], 2, 10, 1, 5) == OneStep()
  {
  }

  lemma {:induction false} SecondStep()
    ensures RecordTransfer(OneStep(), 1, 20, 2, 7) == TwoEvents()
  {
    HitsOfTwo(OneStep()[0], OneStep()[1], 1, 20, 2);
  }

  lemma {:induction false} ThirdStep()
    ensures RecordTransfer(TwoEvents(), 2, 30, 1, 1) == FourEvents()
  {
    HitsOfTwo(TwoEvents()[0], TwoEvents()[1], 2, 30, 1);
  }

  lemma {:induction false} FourthStep()
    ensures Net(Perform(FourEvents(), Move(1, 10, 3, 2)), 1, 10) == 1
    ensures Total(Perform(FourEvents(), Move(1, 10, 3, 2)), 10) == -2
  {
    FourHits();
    FourSums();
    var a := Move(1, 10, 3, 2);
    assert Perform(FourEvents(), a) == RecordTransfer(FourEvents(), 1, 10, 3, 2);
    assert Entered(a, 1, 2, 1, 10) == -4 && EnteredInAll(a, 1, 2, 10) == -2;
    hide Hits, Net, Total, RecordTransfer, Perform, FourEvents, Entered, EnteredInAll, Settled;
    TransferNet(FourEvents(), 1, 10, 3, 2, 1, 10);
  }

  lemma {:induction false} FourHits()
    ensures Hits(FourEvents(), 1, 10, 3, AsSender) == 2 && Hits(FourEvents(), 1, 10, 3, AsRecipient) == 0
  {
    var es := FourEvents();
    assert es == TwoEvents() + [es[2]] + [es[3]];
    assert TwoEvents() == [es[0], es[1]];
    HitsOfTwo(es[0], es[1], 1, 10, 3);
    HitsSnoc(TwoEvents(), es[2], 1, 10, 3);
    HitsSnoc(TwoEvents() + [es[2]], es[3], 1, 10, 3);
  }

  lemma {:induction false} FourSums()
    ensures Net(FourEvents(), 1, 10) == 5 && Total(FourEvents(), 10) == 0 && Settled(FourEvents())
  {
    var es := FourEvents();
    assert es == [] + [es[0]] + [es[1]] + [es[2]] + [es[3]];
    NetSnoc([], es[0], 1, 10);
    NetSnoc([] + [es[0]], es[1], 1, 10);
    NetSnoc([] + [es[0]] + [es[1]], es[2], 1, 10);
    NetSnoc([] + [es[0]] + [es[1]] + [es[2]], es[3], 1, 10);
  }

  lemma {:induction false} HitsOfTwo(e: Event, f: Event, sender: Address, to: Address, recipient: Address)
    ensures var g, h := Update(e, sender, to, recipient, 0).1, Update(f, sender, to, recipient, 0).1;
            && Hits([e, f], sender, to, recipient, AsRecipient)
                 == (if g == AsRecipient then 1 else 0) + (if h == AsRecipient then 1 else 0)
            && Hits([e, f], sender, to, recipient, AsSender)
                 == (if g == AsSender then 1 else 0) + (if h == AsSender then 1 else 0)
  {
    assert [e, f][..1] == [e] && [e][..0] == [];
    assert Hits([e], sender, to, recipient, AsRecipient)
        == if Update(e, sender, to, recipient, 0).1 == AsRecipient then 1 else 0;
    assert Hits([e], sender, to, recipient, AsSender)
        == if Update(e, sender, to, recipient, 0).1 == AsSender then 1 else 0;
  }
}
