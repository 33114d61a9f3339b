/** The auction house of the character server: registering, bidding, buying out, closing, cancelling,
    expiry and restart, with the zeny and the items it holds in escrow. */
module Auction {
  import opened MapTotals

  /** What the `auction` table keeps of an item; the other fields are set when it is put up or reloaded. */
  datatype StoredItem = StoredItem(nameid: nat, uniqueId: nat, refine: nat, cards: seq<nat>)
  datatype Item = Item(stored: StoredItem, amount: int, identify: int, expireTime: int)

  /** `buyer` is 0 while nobody has bid. */
  datatype Auction = Auction(seller: nat, buyer: nat, price: int, buynow: int, item: Item, timer: nat)
  datatype Row = Row(seller: nat, buyer: nat, price: int, buynow: int, item: StoredItem)

  /** What the handlers do that can be observed, in order: the decisions and every mail and reply. A mail is sent on
      account of an auction, and `text` is the number of its message. */
  datatype Event =
    | Registered(id: nat, seller: nat, price: int, buynow: int, item: Item)
    | RegisterRefused(seller: nat)
    | Accepted(id: nat, bidder: nat, bid: int)
    | BidReply(charId: nat, zeny: int, result: nat)
    | ZenyMail(id: nat, dest: nat, zeny: int, text: nat)
    | ItemMail(id: nat, dest: nat, item: Item, text: nat)
    | Message(charId: nat, result: nat)
    | CancelReply(charId: nat, result: nat)
    | CloseReply(charId: nat, result: nat)

  /** `timers` maps each pending timer to the auction it will end; `table` is the SQL table. */
  datatype House = House(db: map<nat, Auction>, timers: map<nat, nat>, table: map<nat, Row>,
                         nextId: nat, nextTimer: nat, log: seq<Event>)

  const EMPTY := House(map[], map[], map[], 1, 0, [])
  const MAX_SALES := 5
  const MAX_BIDS := 5

  function Listed(item: Item): Item { item.(amount := 1, identify := 1, expireTime := 0) }

  function RowOf(a: Auction): Row { Row(a.seller, a.buyer, a.price, a.buynow, a.item.stored) }

  function Sells(charId: nat): Auction -> int { (a: Auction) => if a.seller == charId then 1 else 0 }
  function Leads(charId: nat): Auction -> int { (a: Auction) => if a.buyer == charId then 1 else 0 }

  ghost function Count(db: map<nat, Auction>, charId: nat, buy: bool): int {
    Total(db, if buy then Leads(charId) else Sells(charId))
  }

  function Say(h: House, events: seq<Event>): House { h.(log := h.log + events) }

  /** `auction_delete`: the row, the pending timer and the auction go together. */
  function Delete(h: House, id: nat): House
    requires id in h.db
  {
    h.(db := h.db - {id}, table := h.table - {id}, timers := h.timers - {h.db[id].timer})
  }

  ghost function Register(h: House, seller: nat, price: int, buynow: int, item: Item): House {
    if Count(h.db, seller, false) >= MAX_SALES then Say(h, [RegisterRefused(seller)])
    else
      var a := Auction(seller, 0, price, buynow, Listed(item), h.nextTimer);
      Say(h.(db := h.db[h.nextId := a], timers := h.timers[h.nextTimer := h.nextId],
             table := h.table[h.nextId := RowOf(a)], nextId := h.nextId + 1, nextTimer := h.nextTimer + 1),
          [Registered(h.nextId, seller, price, buynow, Listed(item))])
  }

  function Cancel(h: House, charId: nat, id: nat): House {
    if id !in h.db then Say(h, [CancelReply(charId, 1)])
    else
      var a := h.db[id];
      if a.seller != charId then Say(h, [CancelReply(charId, 2)])
      else if a.buyer > 0 then Say(h, [CancelReply(charId, 3)])
      else Say(Delete(h, id), [ItemMail(id, a.seller, a.item, 205), CancelReply(charId, 0)])
  }

  function Closing(id: nat, a: Auction, charId: nat): seq<Event> {
    [ZenyMail(id, a.seller, a.price, 206), ItemMail(id, a.buyer, a.item, 207), Message(a.buyer, 6),
     CloseReply(charId, 0)]
  }

  function Close(h: House, charId: nat, id: nat): House {
    if id !in h.db then Say(h, [CloseReply(charId, 2)])
    else
      var a := h.db[id];
      if a.seller != charId || a.buyer == 0 then Say(h, [CloseReply(charId, 1)])
      else Say(Delete(h, id), Closing(id, a, charId))
  }

  /** The previous bidder gets the escrowed price back. */
  function Refund(id: nat, a: Auction, charId: nat): seq<Event> {
    if a.buyer == 0 then []
    else if a.buyer != charId then [ZenyMail(id, a.buyer, a.price, 208), Message(a.buyer, 7)]
    else [ZenyMail(id, a.buyer, a.price, 209)]
  }

  /** The previous bidder has been paid, and the bid is in the house. */
  function Bidding(h: House, charId: nat, id: nat, bid: int): House
    requires id in h.db
  {
    var a := h.db[id];
    Say(h.(db := h.db[id := a.(buyer := charId, price := bid)]), Refund(id, a, charId) + [Accepted(id, charId, bid)])
  }

  /** What a bid that reaches the buy-out price says. */
  function SoldAtOnce(id: nat, a: Auction, charId: nat, bid: int): seq<Event> {
    [BidReply(charId, bid - a.buynow, 1), ItemMail(id, charId, a.item, 210), Message(charId, 6),
     ZenyMail(id, a.seller, a.buynow, 211)]
  }

  function AcceptBid(h: House, charId: nat, id: nat, bid: int): House
    requires id in h.db
  {
    var a := h.db[id];
    var bidding := Bidding(h, charId, id, bid);
    if bid >= a.buynow then
      Say(Delete(bidding, id), SoldAtOnce(id, a, charId, bid))
    else
      Say(bidding.(table := h.table[id := RowOf(bidding.db[id])]), [BidReply(charId, 0, 1)])
  }

  ghost predicate TooManyBids(h: House, charId: nat, a: Auction, bid: int) {
    Count(h.db, charId, true) > 4 && bid < a.buynow && a.buyer != charId
  }

  ghost function Bid(h: House, charId: nat, id: nat, bid: int): House {
    if id !in h.db || h.db[id].price >= bid || h.db[id].seller == charId then Say(h, [BidReply(charId, bid, 0)])
    else if TooManyBids(h, charId, h.db[id], bid) then Say(h, [BidReply(charId, bid, 9)])
    else AcceptBid(h, charId, id, bid)
  }

  function Expiry(id: nat, a: Auction): seq<Event> {
    if a.buyer != 0 then
      [ItemMail(id, a.buyer, a.item, 202), Message(a.buyer, 6), ZenyMail(id, a.seller, a.price, 203)]
    else [ItemMail(id, a.seller, a.item, 204)]
  }

  /** A pending timer goes off. */
  function Expire(h: House, timer: nat): House {
    if timer !in h.timers then h
    else
      var id := h.timers[timer];
      var fired := h.(timers := h.timers - {timer});
      if id !in h.db then fired
      else
        Say(fired.(db := h.db - {id}, table := h.table - {id}), Expiry(id, h.db[id]))
  }

  function LoadRow(h: House, id: nat): House
    requires id in h.table
  {
    var r := h.table[id];
    var a := Auction(r.seller, r.buyer, r.price, r.buynow, Item(r.item, 1, 1, 0), h.nextTimer);
    h.(db := h.db[id := a], timers := h.timers[h.nextTimer := id], nextTimer := h.nextTimer + 1)
  }

  function LoadRows(h: House, ids: seq<nat>): House
    requires forall id | id in ids :: id in h.table
    decreases |ids|
  {
    if ids == [] then h else LoadRows(LoadRow(h, ids[0]), ids[1..])
  }

  ghost predicate IsSelect(ids: seq<nat>, table: map<nat, Row>) {
    && (forall id :: id in ids <==> id in table)
    && (forall i, j | 0 <= i < j < |ids| :: ids[i] != ids[j])
  }

  /** The server stops and starts again: memory and timers are gone, the rows are loaded in order `ids`. */
  ghost function Restart(h: House, ids: seq<nat>): House
    requires IsSelect(ids, h.table)
  {
    LoadRows(h.(db := map[], timers := map[]), ids)
  }

  // ----- packets and runs -----

  datatype Packet =
    | PRegister(seller: nat, price: int, buynow: int, item: Item)
    | PCancel(charId: nat, id: nat)
    | PClose(charId: nat, id: nat)
    | PBid(charId: nat, id: nat, bid: int)
    | PTimer(timer: nat)
    | PRestart(ids: seq<nat>)

  /** Character ids are not 0, and a restart reads each row once. */
  ghost predicate Sound(h: House, p: Packet) {
    match p
    case PBid(charId, _, _) => charId != 0
    case PRestart(ids) => IsSelect(ids, h.table)
    case _ => true
  }

  ghost function Handle(h: House, p: Packet): House
    requires Sound(h, p)
  {
    match p
    case PRegister(seller, price, buynow, item) => Register(h, seller, price, buynow, item)
    case PCancel(charId, id) => Cancel(h, charId, id)
    case PClose(charId, id) => Close(h, charId, id)
    case PBid(charId, id, bid) => Bid(h, charId, id, bid)
    case PTimer(timer) => Expire(h, timer)
    case PRestart(ids) => Restart(h, ids)
  }

  ghost predicate SoundRun(h: House, ps: seq<Packet>)
    decreases |ps|
  {
    ps == [] || (Sound(h, ps[0]) && SoundRun(Handle(h, ps[0]), ps[1..]))
  }

  ghost function Run(h: House, ps: seq<Packet>): House
    requires SoundRun(h, ps)
    decreases |ps|
  {
    if ps == [] then h else Run(Handle(h, ps[0]), ps[1..])
  }

  // ----- the story of an auction -----

  /** What was agreed: `buyer` is 0 while nobody has bid. */
  datatype Deal = Deal(seller: nat, buyer: nat, price: int, buynow: int, item: Item)

  /** A bid at or above the buy-out price buys at that price. */
  function SalePrice(d: Deal): int { if d.price < d.buynow then d.price else d.buynow }

  /** The life of one auction, read off the log: registered once; every accepted bid tops the last price, and the bidder
      before it has been paid back just that price; in the end the item goes back to the seller, or the item goes to the
      last bidder and the sale price to the seller, each once. Anything else breaks the story. */
  datatype Story =
    | NotYet
    | OnSale(deal: Deal)
    | Refunded(deal: Deal, again: bool)
    | SellerPaid(deal: Deal)
    | ItemSent(deal: Deal)
    | Gone(deal: Deal)
    | Broken

  predicate About(e: Event, id: nat) { (e.Registered? || e.Accepted? || e.ItemMail? || e.ZenyMail?) && e.id == id }

  predicate Aside(e: Event) { !e.Registered? && !e.Accepted? && !e.ItemMail? && !e.ZenyMail? }

  /** The previous bidder was outbid, or raised the own bid. */
  predicate IsRefund(text: nat) { text == 208 || text == 209 }

  predicate IsPrize(text: nat) { text == 202 || text == 207 || text == 210 }

  function Advance(s: Story, e: Event): Story {
    match e
    case Registered(_, seller, price, buynow, item) =>
      if s.NotYet? then OnSale(Deal(seller, 0, price, buynow, item)) else Broken
    case Accepted(_, bidder, bid) =>
      if (|| (s.OnSale? && s.deal.buyer == 0)
          || (s.Refunded? && s.again == (bidder == s.deal.buyer)))
         && bid > s.deal.price && bidder != s.deal.seller
      then OnSale(s.deal.(buyer := bidder, price := bid)) else Broken
    case ZenyMail(_, dest, zeny, text) =>
      if s.NotYet? || s.Broken? || s.deal.buyer == 0 then Broken
      else if IsRefund(text) then
        if s.OnSale? && dest == s.deal.buyer && zeny == s.deal.price then Refunded(s.deal, text == 209) else Broken
      else if dest != s.deal.seller || zeny != SalePrice(s.deal) then Broken
      else if s.OnSale? then SellerPaid(s.deal)
      else if s.ItemSent? then Gone(s.deal)
      else Broken
    case ItemMail(_, dest, item, text) =>
      if s.NotYet? || s.Broken? || item != s.deal.item || IsPrize(text) != (s.deal.buyer != 0) then Broken
      else if s.deal.buyer == 0 then
        if s.OnSale? && dest == s.deal.seller then Gone(s.deal) else Broken
      else if dest != s.deal.buyer then Broken
      else if s.OnSale? then ItemSent(s.deal)
      else if s.SellerPaid? then Gone(s.deal)
      else Broken
    case _ => s
  }

  function After(s: Story, e: Event, id: nat): Story { if About(e, id) then Advance(s, e) else s }

  function Replay(s: Story, log: seq<Event>, id: nat): Story {
    if log == [] then s else After(Replay(s, log[..|log| - 1], id), log[|log| - 1], id)
  }

  function StoryOf(log: seq<Event>, id: nat): Story { Replay(NotYet, log, id) }

  lemma {:induction false} ReplayAppend(s: Story, log: seq<Event>, more: seq<Event>, id: nat)
    ensures Replay(s, log + more, id) == Replay(Replay(s, log, id), more, id)
    decreases |more|
  {
    if more == [] {
      assert log + more == log;
    } else {
      var n := |more| - 1;
      ReplayAppend(s, log, more[..n], id);
      assert (log + more)[..|log| + n] == log + more[..n];
    }
  }

  lemma {:induction false} ReplayFirst(s: Story, e: Event, rest: seq<Event>, id: nat)
    ensures Replay(s, [e] + rest, id) == Replay(After(s, e, id), rest, id)
  {
    ReplayAppend(s, [e], rest, id);
    assert [e][..0] == [];
  }

  lemma {:induction false} ReplayOne(s: Story, a: Event, id: nat)
    ensures Replay(s, [a], id) == After(s, a, id)
  {
    ReplayFirst(s, a, [], id);
    assert [a] + [] == [a];
  }

  lemma {:induction false} ReplayTwo(s: Story, a: Event, b: Event, id: nat)
    ensures Replay(s, [a, b], id) == After(After(s, a, id), b, id)
  {
    ReplayFirst(s, a, [b], id);
    ReplayOne(After(s, a, id), b, id);
    assert [a] + [b] == [a, b];
  }

  lemma {:induction false} ReplayThree(s: Story, a: Event, b: Event, c: Event, id: nat)
    ensures Replay(s, [a, b, c], id) == After(After(After(s, a, id), b, id), c, id)
  {
    ReplayFirst(s, a, [b, c], id);
    ReplayTwo(After(s, a, id), b, c, id);
    assert [a] + [b, c] == [a, b, c];
  }

  lemma {:induction false} ReplayFour(s: Story, a: Event, b: Event, c: Event, d: Event, id: nat)
    ensures Replay(s, [a, b, c, d], id) == After(After(After(After(s, a, id), b, id), c, id), d, id)
  {
    ReplayFirst(s, a, [b, c, d], id);
    ReplayThree(After(s, a, id), b, c, d, id);
    assert [a] + [b, c, d] == [a, b, c, d];
  }

  ghost predicate OnlyAbout(more: seq<Event>, id: nat) {
    forall j, k: nat | 0 <= j < |more| && k != id :: !About(more[j], k)
  }

  lemma {:induction false} ReplayNothing(s: Story, more: seq<Event>, id: nat)
    requires forall i | 0 <= i < |more| :: !About(more[i], id)
    ensures Replay(s, more, id) == s
  {
    if more != [] {
      ReplayNothing(s, more[..|more| - 1], id);
    }
  }

  /** Events about one auction leave the others' stories alone. */
  lemma {:induction false} OthersUntouched(log: seq<Event>, more: seq<Event>, id: nat)
    requires OnlyAbout(more, id)
    ensures forall k: nat | k != id :: StoryOf(log + more, k) == StoryOf(log, k)
    ensures StoryOf(log + more, id) == Replay(StoryOf(log, id), more, id)
  {
    ReplayAppend(NotYet, log, more, id);
    forall k: nat | k != id ensures StoryOf(log + more, k) == StoryOf(log, k) {
      ReplayAppend(NotYet, log, more, k);
      ReplayNothing(StoryOf(log, k), more, k);
    }
  }

  function DealOf(a: Auction): Deal { Deal(a.seller, a.buyer, a.price, a.buynow, a.item) }

  /** What the events of each handler make of the story of their auction. */

  lemma {:induction false} RefundTold(id: nat, a: Auction, charId: nat, bid: int)
    requires charId != 0 && charId != a.seller && a.price < bid
    ensures Replay(OnSale(DealOf(a)), Refund(id, a, charId) + [Accepted(id, charId, bid)], id) ==
            OnSale(DealOf(a.(buyer := charId, price := bid)))
  {
    var s, e := OnSale(DealOf(a)), Accepted(id, charId, bid);
    if a.buyer == 0 {
      assert [] + [e] == [e];
      ReplayOne(s, e, id);
    } else if a.buyer != charId {
      var z, m := ZenyMail(id, a.buyer, a.price, 208), Message(a.buyer, 7);
      assert [z, m] + [e] == [z, m, e];
      ReplayThree(s, z, m, e, id);
    } else {
      var z := ZenyMail(id, a.buyer, a.price, 209);
      assert [z] + [e] == [z, e];
      ReplayTwo(s, z, e, id);
    }
  }

  lemma {:induction false} SoldAtOnceTold(id: nat, a: Auction, charId: nat, bid: int)
    requires charId != 0 && bid >= a.buynow
    ensures var deal := DealOf(a.(buyer := charId, price := bid));
            Replay(OnSale(deal), SoldAtOnce(id, a, charId, bid), id) == Gone(deal)
  {
    var more := SoldAtOnce(id, a, charId, bid);
    ReplayFour(OnSale(DealOf(a.(buyer := charId, price := bid))), more[0], more[1], more[2], more[3], id);
  }

  lemma {:induction false} ClosedTold(id: nat, a: Auction, charId: nat)
    requires a.buyer != 0 && a.price < a.buynow
    ensures Replay(OnSale(DealOf(a)), Closing(id, a, charId), id) == Gone(DealOf(a))
  {
    var more := Closing(id, a, charId);
    ReplayFour(OnSale(DealOf(a)), more[0], more[1], more[2], more[3], id);
  }

  lemma {:induction false} CancelledTold(id: nat, a: Auction, charId: nat)
    requires a.buyer == 0
    ensures Replay(OnSale(DealOf(a)), [ItemMail(id, a.seller, a.item, 205), CancelReply(charId, 0)], id) ==
            Gone(DealOf(a))
  {
    ReplayTwo(OnSale(DealOf(a)), ItemMail(id, a.seller, a.item, 205), CancelReply(charId, 0), id);
  }

  lemma {:induction false} ExpiredTold(id: nat, a: Auction)
    requires a.buyer != 0 ==> a.price < a.buynow
    ensures Replay(OnSale(DealOf(a)), Expiry(id, a), id) == Gone(DealOf(a))
  {
    var more := Expiry(id, a);
    if a.buyer != 0 {
      ReplayThree(OnSale(DealOf(a)), more[0], more[1], more[2], id);
    } else {
      ReplayOne(OnSale(DealOf(a)), more[0], id);
    }
  }

  // ----- accounts -----

  function SumLog(log: seq<Event>, f: Event -> int): int {
    if log == [] then 0 else SumLog(log[..|log| - 1], f) + f(log[|log| - 1])
  }

  lemma {:induction false} SumLogAppend(log: seq<Event>, more: seq<Event>, f: Event -> int)
    ensures SumLog(log + more, f) == SumLog(log, f) + SumLog(more, f)
    decreases |more|
  {
    if more == [] {
      assert log + more == log;
    } else {
      var n := |more| - 1;
      SumLogAppend(log, more[..n], f);
      assert (log + more)[..|log| + n] == log + more[..n];
    }
  }

  lemma {:induction false} SumFirst(a: Event, rest: seq<Event>, f: Event -> int)
    ensures SumLog([a] + rest, f) == f(a) + SumLog(rest, f)
  {
    SumLogAppend([a], rest, f);
    assert [a][..0] == [];
  }

  lemma {:induction false} SumOne(a: Event, f: Event -> int)
    ensures SumLog([a], f) == f(a)
  {
    SumFirst(a, [], f);
    assert [a] + [] == [a];
  }

  lemma {:induction false} SumTwo(a: Event, b: Event, f: Event -> int)
    ensures SumLog([a, b], f) == f(a) + f(b)
  {
    SumFirst(a, [b], f);
    SumOne(b, f);
    assert [a] + [b] == [a, b];
  }

  lemma {:induction false} SumThree(a: Event, b: Event, c: Event, f: Event -> int)
    ensures SumLog([a, b, c], f) == f(a) + f(b) + f(c)
  {
    SumFirst(a, [b, c], f);
    SumTwo(b, c, f);
    assert [a] + [b, c] == [a, b, c];
  }

  lemma {:induction false} SumFour(a: Event, b: Event, c: Event, d: Event, f: Event -> int)
    ensures SumLog([a, b, c, d], f) == f(a) + f(b) + f(c) + f(d)
  {
    SumFirst(a, [b, c, d], f);
    SumThree(b, c, d, f);
    assert [a] + [b, c, d] == [a, b, c, d];
  }

  /** Books that are kept over the log: of all zeny; of what a character bids and gets back; of what a character is paid
      as a seller; and of the messages about auctions won and lost. */
  datatype Account = Everybody | Bidder(c: nat) | Seller(c: nat) | Winner(c: nat) | Loser(c: nat)

  /** What an event adds. */
  function Entry(acc: Account, e: Event): int {
    match acc
    case Everybody => if e.ZenyMail? || e.BidReply? then e.zeny else 0
    case Bidder(c) =>
      if e.ZenyMail? && IsRefund(e.text) && e.dest == c then e.zeny
      else if e.BidReply? && e.charId == c then e.zeny
      else 0
    case Seller(c) => if e.ZenyMail? && !IsRefund(e.text) && e.dest == c then -e.zeny else 0
    case Winner(c) =>
      if e == Message(c, 6) then 1 else if e.ItemMail? && IsPrize(e.text) && e.dest == c then -1 else 0
    case Loser(c) =>
      if e == Message(c, 7) then 1 else if e.ZenyMail? && e.text == 208 && e.dest == c then -1 else 0
  }

  /** What a live auction holds. */
  function Held(acc: Account, a: Auction): int {
    match acc
    case Everybody => if a.buyer != 0 then a.price else 0
    case Bidder(c) => if a.buyer == c then a.price else 0
    case _ => 0
  }

  /** What an auction that is over settles: the winner has spent the sale price, and the seller has earned it. */
  function Settled(acc: Account, s: Story): int {
    match acc
    case Bidder(c) => if s.Gone? && s.deal.buyer == c then SalePrice(s.deal) else 0
    case Seller(c) => if s.Gone? && s.deal.buyer != 0 && s.deal.seller == c then SalePrice(s.deal) else 0
    case _ => 0
  }

  function EntryOf(acc: Account): Event -> int { (e: Event) => Entry(acc, e) }
  function HeldOf(acc: Account): Auction -> int { (a: Auction) => Held(acc, a) }

  ghost function SettledSum(acc: Account, log: seq<Event>, n: nat): int {
    if n == 0 then 0 else SettledSum(acc, log, n - 1) + Settled(acc, StoryOf(log, n - 1))
  }

  ghost function Balance(acc: Account, h: House): int {
    SumLog(h.log, EntryOf(acc)) + Total(h.db, HeldOf(acc)) + SettledSum(acc, h.log, h.nextId)
  }

  /** What a packet brings in. */
  function Income(acc: Account, p: Packet): int {
    match acc
    case Everybody => if p.PBid? then p.bid else 0
    case Bidder(c) => if p.PBid? && p.charId == c then p.bid else 0
    case _ => 0
  }

  lemma {:induction false} SettledOther(acc: Account, log: seq<Event>, log': seq<Event>, n: nat, id: nat)
    requires forall k: nat | k != id :: StoryOf(log', k) == StoryOf(log, k)
    ensures SettledSum(acc, log', n) == SettledSum(acc, log, n) +
              if id < n then Settled(acc, StoryOf(log', id)) - Settled(acc, StoryOf(log, id)) else 0
    decreases n
  {
    if n > 0 {
      SettledOther(acc, log, log', n - 1, id);
    }
  }

  /** How the balance moves with events about one auction. */
  lemma {:induction false} BalanceMoves(acc: Account, h: House, h': House, more: seq<Event>, id: nat)
    requires h'.log == h.log + more && h'.nextId == h.nextId && OnlyAbout(more, id)
    ensures Balance(acc, h') == Balance(acc, h) + SumLog(more, EntryOf(acc))
                                + Total(h'.db, HeldOf(acc)) - Total(h.db, HeldOf(acc))
                                + (if id >= h.nextId then 0
                                   else Settled(acc, Replay(StoryOf(h.log, id), more, id))
                                        - Settled(acc, StoryOf(h.log, id)))
  {
    SumLogAppend(h.log, more, EntryOf(acc));
    OthersUntouched(h.log, more, id);
    SettledOther(acc, h.log, h'.log, h.nextId, id);
  }

  // ----- the invariant -----

  /** Every live auction has exactly one pending timer, and every pending timer ends a live auction. */
  ghost predicate Linked(h: House) {
    && (forall id | id in h.db :: id < h.nextId && h.db[id].timer in h.timers && h.timers[h.db[id].timer] == id)
    && (forall t | t in h.timers :: t < h.nextTimer && h.timers[t] in h.db && h.db[h.timers[t]].timer == t)
  }

  ghost predicate RowsOf(db: map<nat, Auction>, table: map<nat, Row>) {
    db.Keys == table.Keys && forall id | id in db :: table[id] == RowOf(db[id]) && db[id].item == Listed(db[id].item)
  }

  /** The table holds exactly the live auctions. */
  ghost predicate Persisted(h: House) { RowsOf(h.db, h.table) }

  /** Nobody sells more than five items or leads more than five auctions. */
  ghost predicate WithinLimits(db: map<nat, Auction>) { forall c: nat :: LimitFor(db, c) }

  ghost predicate LimitFor(db: map<nat, Auction>, c: nat) {
    Count(db, c, false) <= MAX_SALES && (c != 0 ==> Count(db, c, true) <= MAX_BIDS)
  }

  /** The log tells of every auction exactly what the house holds. */
  ghost predicate Told(h: House) {
    forall id: nat ::
      var s := StoryOf(h.log, id);
      if id in h.db then s == OnSale(DealOf(h.db[id])) else if 0 < id < h.nextId then s.Gone? else s == NotYet
  }

  /** A bid that is held is below the buy-out price, and not the seller's own. */
  ghost predicate Underbid(db: map<nat, Auction>) {
    forall id | id in db && db[id].buyer != 0 :: db[id].price < db[id].buynow
  }

  ghost predicate Core(h: House) {
    Linked(h) && Persisted(h) && Told(h) && 0 < h.nextId && 0 !in h.db
  }

  ghost predicate Inv(h: House) { Core(h) && WithinLimits(h.db) && Underbid(h.db) }

  lemma {:induction false} Announced(h: House, more: seq<Event>)
    requires Core(h) && forall i | 0 <= i < |more| :: Aside(more[i])
    ensures Core(Say(h, more))
  {
    forall k: nat ensures StoryOf(h.log + more, k) == StoryOf(h.log, k) {
      ReplayAppend(NotYet, h.log, more, k);
      ReplayNothing(StoryOf(h.log, k), more, k);
    }
  }

  lemma {:induction false} EndedTold(h: House, id: nat, more: seq<Event>)
    requires Core(h) && id in h.db && OnlyAbout(more, id)
    requires Replay(OnSale(DealOf(h.db[id])), more, id).Gone?
    ensures Told(Say(Delete(h, id), more))
  {
    OthersUntouched(h.log, more, id);
  }

  lemma {:induction false} EndedLinked(h: House, id: nat)
    requires Linked(h) && Persisted(h) && id in h.db
    ensures Linked(Delete(h, id)) && Persisted(Delete(h, id))
  {
    assert h.db[id].timer in h.timers;
  }

  /** An auction ends: its row, timer and entry go, and the events close its story. */
  lemma {:induction false} Ended(h: House, id: nat, more: seq<Event>)
    requires Core(h) && id in h.db && OnlyAbout(more, id)
    requires Replay(OnSale(DealOf(h.db[id])), more, id).Gone?
    ensures Core(Say(Delete(h, id), more))
  {
    EndedTold(h, id, more);
    EndedLinked(h, id);
  }

  lemma {:induction false} FewerWithin(db: map<nat, Auction>, id: nat)
    requires id in db && WithinLimits(db)
    ensures WithinLimits(db - {id})
  {
    forall c: nat ensures LimitFor(db - {id}, c) {
      assert LimitFor(db, c);
      TotalWithout(db, Sells(c), id);
      TotalWithout(db, Leads(c), id);
    }
  }

  lemma {:induction false} SellerWithin(db: map<nat, Auction>, id: nat, a: Auction)
    requires WithinLimits(db) && id !in db && a.buyer == 0 && Count(db, a.seller, false) < MAX_SALES
    ensures WithinLimits(db[id := a])
  {
    var db' := db[id := a];
    forall c: nat ensures LimitFor(db', c) {
      assert LimitFor(db, c);
      TotalUpdate(db, Sells(c), id, a);
      TotalUpdate(db, Leads(c), id, a);
    }
  }

  lemma {:induction false} RegisteredTold(h: House, seller: nat, price: int, buynow: int, item: Item)
    requires Core(h) && Count(h.db, seller, false) < MAX_SALES
    ensures Told(Register(h, seller, price, buynow, item))
  {
    var e := Registered(h.nextId, seller, price, buynow, Listed(item));
    OthersUntouched(h.log, [e], h.nextId);
    ReplayOne(NotYet, e, h.nextId);
  }

  lemma {:induction false} RegisteredKeeps(h: House, seller: nat, price: int, buynow: int, item: Item)
    requires Core(h) && Count(h.db, seller, false) < MAX_SALES
    ensures Core(Register(h, seller, price, buynow, item))
  {
    RegisteredTold(h, seller, price, buynow, item);
  }

  lemma {:induction false} RegisterKeeps(h: House, seller: nat, price: int, buynow: int, item: Item)
    requires Inv(h)
    ensures Inv(Register(h, seller, price, buynow, item))
  {
    if Count(h.db, seller, false) >= MAX_SALES {
      Announced(h, [RegisterRefused(seller)]);
    } else {
      RegisteredKeeps(h, seller, price, buynow, item);
      SellerWithin(h.db, h.nextId, Auction(seller, 0, price, buynow, Listed(item), h.nextTimer));
    }
  }

  lemma {:induction false} CancelKeeps(h: House, charId: nat, id: nat)
    requires Inv(h)
    ensures Inv(Cancel(h, charId, id))
  {
    if id in h.db && h.db[id].seller == charId && h.db[id].buyer == 0 {
      CancelledTold(id, h.db[id], charId);
      Ended(h, id, [ItemMail(id, h.db[id].seller, h.db[id].item, 205), CancelReply(charId, 0)]);
      FewerWithin(h.db, id);
    } else {
      Announced(h, [CancelReply(charId, if id !in h.db then 1 else if h.db[id].seller != charId then 2 else 3)]);
    }
  }

  lemma {:induction false} CloseKeeps(h: House, charId: nat, id: nat)
    requires Inv(h)
    ensures Inv(Close(h, charId, id))
  {
    if id in h.db && h.db[id].seller == charId && h.db[id].buyer != 0 {
      ClosedTold(id, h.db[id], charId);
      Ended(h, id, Closing(id, h.db[id], charId));
      FewerWithin(h.db, id);
    } else {
      Announced(h, [CloseReply(charId, if id !in h.db then 2 else 1)]);
    }
  }

  /** For a pending timer, what it does besides no longer being pending. */
  lemma {:induction false} ExpireDeletes(h: House, timer: nat)
    requires Linked(h) && timer in h.timers
    ensures var id := h.timers[timer]; id in h.db && Expire(h, timer) == Say(Delete(h, id), Expiry(id, h.db[id]))
  {
  }

  lemma {:induction false} ExpireKeeps(h: House, timer: nat)
    requires Inv(h)
    ensures Inv(Expire(h, timer))
  {
    if timer in h.timers {
      var id := h.timers[timer];
      ExpireDeletes(h, timer);
      ExpiredTold(id, h.db[id]);
      Ended(h, id, Expiry(id, h.db[id]));
      FewerWithin(h.db, id);
    }
  }

  /** The state in which the bid is accepted and saved. */
  function Saved(h: House, charId: nat, id: nat, bid: int): House
    requires id in h.db && id in h.table
  {
    var a := h.db[id].(buyer := charId, price := bid);
    Bidding(h, charId, id, bid).(table := h.table[id := RowOf(a)])
  }

  lemma {:induction false} AcceptedTold(h: House, charId: nat, id: nat, bid: int)
    requires Core(h) && id in h.db && charId != 0 && charId != h.db[id].seller && h.db[id].price < bid
    ensures Told(Saved(h, charId, id, bid))
  {
    var a := h.db[id];
    RefundTold(id, a, charId, bid);
    OthersUntouched(h.log, Refund(id, a, charId) + [Accepted(id, charId, bid)], id);
  }

  lemma {:induction false} AcceptedKeeps(h: House, charId: nat, id: nat, bid: int)
    requires Core(h) && id in h.db && charId != 0 && charId != h.db[id].seller && h.db[id].price < bid
    ensures Core(Saved(h, charId, id, bid))
  {
    AcceptedTold(h, charId, id, bid);
  }

  lemma {:induction false} LeaderWithin(db: map<nat, Auction>, charId: nat, id: nat, bid: int)
    requires WithinLimits(db) && id in db && charId != 0
    requires Count(db, charId, true) < MAX_BIDS || db[id].buyer == charId
    ensures WithinLimits(db[id := db[id].(buyer := charId, price := bid)])
  {
    var a := db[id].(buyer := charId, price := bid);
    var db' := db[id := a];
    forall c: nat ensures LimitFor(db', c) {
      assert LimitFor(db, c);
      TotalUpdate(db, Sells(c), id, a);
      TotalUpdate(db, Leads(c), id, a);
    }
  }

  lemma {:induction false} BuyOutForgets(h: House, charId: nat, id: nat, bid: int)
    requires id in h.db && id in h.table && bid >= h.db[id].buynow
    ensures AcceptBid(h, charId, id, bid) ==
            Say(Delete(Saved(h, charId, id, bid), id), SoldAtOnce(id, h.db[id], charId, bid))
    ensures Saved(h, charId, id, bid).db - {id} == h.db - {id}
  {
    var h1 := Saved(h, charId, id, bid);
    assert h1.db - {id} == h.db - {id} && h1.table - {id} == h.table - {id};
  }

  lemma {:induction false} BuyOutKeeps(h: House, charId: nat, id: nat, bid: int)
    requires Inv(h) && id in h.db && charId != 0 && charId != h.db[id].seller && h.db[id].price < bid
    requires bid >= h.db[id].buynow
    ensures Inv(AcceptBid(h, charId, id, bid))
  {
    var a := h.db[id];
    AcceptedKeeps(h, charId, id, bid);
    SoldAtOnceTold(id, a, charId, bid);
    assert SoldAtOnce(id, a, charId, bid) == SoldAtOnce(id, a.(buyer := charId, price := bid), charId, bid);
    Ended(Saved(h, charId, id, bid), id, SoldAtOnce(id, a, charId, bid));
    FewerWithin(h.db, id);
    BuyOutForgets(h, charId, id, bid);
  }

  lemma {:induction false} RaiseKeeps(h: House, charId: nat, id: nat, bid: int)
    requires Inv(h) && id in h.db && charId != 0 && charId != h.db[id].seller && h.db[id].price < bid
    requires bid < h.db[id].buynow && !TooManyBids(h, charId, h.db[id], bid)
    ensures Inv(AcceptBid(h, charId, id, bid))
  {
    var saved := Saved(h, charId, id, bid);
    AcceptedKeeps(h, charId, id, bid);
    var reply := [BidReply(charId, 0, 1)];
    assert Aside(reply[0]);
    Announced(saved, reply);
    LeaderWithin(h.db, charId, id, bid);
    assert saved.db == h.db[id := h.db[id].(buyer := charId, price := bid)];
    assert AcceptBid(h, charId, id, bid) == Say(saved, reply);
  }

  lemma {:induction false} BidKeeps(h: House, charId: nat, id: nat, bid: int)
    requires Inv(h) && charId != 0
    ensures Inv(Bid(h, charId, id, bid))
  {
    if id !in h.db || h.db[id].price >= bid || h.db[id].seller == charId {
      Announced(h, [BidReply(charId, bid, 0)]);
    } else if TooManyBids(h, charId, h.db[id], bid) {
      Announced(h, [BidReply(charId, bid, 9)]);
    } else if bid >= h.db[id].buynow {
      BuyOutKeeps(h, charId, id, bid);
    } else {
      RaiseKeeps(h, charId, id, bid);
    }
  }

  // ----- restart -----

  lemma {:induction false} LoadRowKeeps(h: House, id: nat)
    requires Linked(h) && id in h.table && id < h.nextId && id !in h.db
    ensures var h' := LoadRow(h, id);
            && Linked(h') && h'.table == h.table && h'.log == h.log && h'.nextId == h.nextId
            && h'.db == h.db[id := h'.db[id]] && RowOf(h'.db[id]) == h.table[id]
            && h'.db[id].item == Listed(h'.db[id].item)
  {
  }

  lemma {:induction false} HeadAndRest(ids: seq<nat>)
    requires ids != [] && forall i, j | 0 <= i < j < |ids| :: ids[i] != ids[j]
    ensures forall id | id in ids[1..] :: id in ids && id != ids[0]
    ensures (set id | id in ids) == {ids[0]} + (set id | id in ids[1..])
  {
  }

  /** After some rows are loaded: the rows of `ids` are live again, each with its own timer. */
  lemma {:induction false} LoadRowsKeeps(h: House, ids: seq<nat>)
    requires Linked(h) && (forall id | id in ids :: id in h.table && id < h.nextId && id !in h.db)
    requires forall i, j | 0 <= i < j < |ids| :: ids[i] != ids[j]
    ensures var h' := LoadRows(h, ids);
            && Linked(h') && h'.table == h.table && h'.log == h.log && h'.nextId == h.nextId
            && h'.db.Keys == h.db.Keys + (set id | id in ids)
            && (forall id | id in h.db :: h'.db[id] == h.db[id])
            && (forall id | id in ids :: RowOf(h'.db[id]) == h.table[id] && h'.db[id].item == Listed(h'.db[id].item))
    decreases |ids|
  {
    if ids != [] {
      var h1, rest := LoadRow(h, ids[0]), ids[1..];
      LoadRowKeeps(h, ids[0]);
      HeadAndRest(ids);
      assert h1.db.Keys == h.db.Keys + {ids[0]};
      LoadRowsKeeps(h1, rest);
      var h' := LoadRows(h1, rest);
      assert h'.db[ids[0]] == h1.db[ids[0]];
      assert forall id | id in h.db :: h1.db[id] == h.db[id];
    }
  }

  ghost predicate SameButTimers(db: map<nat, Auction>, db': map<nat, Auction>) {
    db'.Keys == db.Keys && forall id | id in db :: db'[id] == db[id].(timer := db'[id].timer)
  }

  lemma {:induction false} RowBack(a: Auction, b: Auction)
    requires RowOf(b) == RowOf(a) && a.item == Listed(a.item) && b.item == Listed(b.item)
    ensures b == a.(timer := b.timer)
  {
  }

  lemma {:induction false} SameRows(db: map<nat, Auction>, db': map<nat, Auction>, table: map<nat, Row>)
    requires RowsOf(db, table) && RowsOf(db', table)
    ensures SameButTimers(db, db')
  {
    forall id | id in db ensures db'[id] == db[id].(timer := db'[id].timer) {
      RowBack(db[id], db'[id]);
    }
  }

  lemma {:induction false} RestartLoads(h: House, ids: seq<nat>)
    requires IsSelect(ids, h.table) && forall id | id in h.table :: id < h.nextId
    ensures var h' := Restart(h, ids);
            && Linked(h') && h'.table == h.table && h'.log == h.log && h'.nextId == h.nextId
            && RowsOf(h'.db, h.table)
  {
    var start := h.(db := map[], timers := map[]);
    LoadRowsKeeps(start, ids);
    assert start.db.Keys + (set id | id in ids) == h.table.Keys;
  }

  /** A restart brings back the same auctions, up to their timers. */
  lemma {:induction false} RestartRestores(h: House, ids: seq<nat>)
    requires Core(h) && IsSelect(ids, h.table)
    ensures var h' := Restart(h, ids);
            && Linked(h') && h'.table == h.table && h'.log == h.log && h'.nextId == h.nextId
            && SameButTimers(h.db, h'.db)
  {
    RestartLoads(h, ids);
    SameRows(h.db, Restart(h, ids).db, h.table);
  }

  lemma {:induction false} SameTotals(db: map<nat, Auction>, db': map<nat, Auction>)
    requires SameButTimers(db, db')
    ensures WithinLimits(db) ==> WithinLimits(db')
    ensures Underbid(db) ==> Underbid(db')
  {
    forall c: nat ensures LimitFor(db, c) ==> LimitFor(db', c) {
      TotalSame(db, db', Sells(c));
      TotalSame(db, db', Leads(c));
    }
  }

  lemma {:induction false} SameStories(h: House, h': House)
    requires Core(h) && Linked(h') && SameButTimers(h.db, h'.db)
    requires h'.table == h.table && h'.log == h.log && h'.nextId == h.nextId
    ensures Core(h')
  {
    forall id | id in h.db ensures RowOf(h'.db[id]) == RowOf(h.db[id]) && DealOf(h'.db[id]) == DealOf(h.db[id]) {
    }
  }

  lemma {:induction false} RestartKeeps(h: House, ids: seq<nat>)
    requires Inv(h) && IsSelect(ids, h.table)
    ensures Inv(Restart(h, ids))
  {
    RestartRestores(h, ids);
    SameTotals(h.db, Restart(h, ids).db);
    SameStories(h, Restart(h, ids));
  }

  lemma {:induction false} SameBooks(acc: Account, h: House, h': House)
    requires SameButTimers(h.db, h'.db) && h'.log == h.log && h'.nextId == h.nextId
    ensures Balance(acc, h') == Balance(acc, h)
  {
    TotalSame(h.db, h'.db, HeldOf(acc));
  }

  lemma {:induction false} RestartBooks(acc: Account, h: House, ids: seq<nat>)
    requires Inv(h) && IsSelect(ids, h.table)
    ensures Balance(acc, Restart(h, ids)) == Balance(acc, h)
  {
    RestartRestores(h, ids);
    SameBooks(acc, h, Restart(h, ids));
  }

  lemma {:induction false} HandleKeeps(h: House, p: Packet)
    requires Inv(h) && Sound(h, p)
    ensures Inv(Handle(h, p))
  {
    match p
    case PRegister(seller, price, buynow, item) => RegisterKeeps(h, seller, price, buynow, item);
    case PCancel(charId, id) => CancelKeeps(h, charId, id);
    case PClose(charId, id) => CloseKeeps(h, charId, id);
    case PBid(charId, id, bid) => BidKeeps(h, charId, id, bid);
    case PTimer(timer) => ExpireKeeps(h, timer);
    case PRestart(ids) => RestartKeeps(h, ids);
  }

  // ----- conservation -----

  /** Nobody is character 0. */
  predicate Someone(acc: Account) { acc.Bidder? ==> acc.c != 0 }

  lemma {:induction false} SaidBooks(acc: Account, h: House, e: Event)
    requires Aside(e)
    ensures Balance(acc, Say(h, [e])) == Balance(acc, h) + Entry(acc, e)
  {
    SumLogAppend(h.log, [e], EntryOf(acc));
    SumOne(e, EntryOf(acc));
    OthersUntouched(h.log, [e], h.nextId);
    ReplayNothing(StoryOf(h.log, h.nextId), [e], h.nextId);
    SettledOther(acc, h.log, h.log + [e], h.nextId, h.nextId);
  }

  lemma {:induction false} EndedBooks(acc: Account, h: House, id: nat, more: seq<Event>)
    requires Core(h) && id in h.db && OnlyAbout(more, id)
    requires Replay(OnSale(DealOf(h.db[id])), more, id) == Gone(DealOf(h.db[id]))
    ensures Balance(acc, Say(Delete(h, id), more)) ==
            Balance(acc, h) + SumLog(more, EntryOf(acc)) - Held(acc, h.db[id]) + Settled(acc, Gone(DealOf(h.db[id])))
  {
    TotalWithout(h.db, HeldOf(acc), id);
    BalanceMoves(acc, h, Say(Delete(h, id), more), more, id);
  }

  lemma {:induction false} RegisteredSettles(acc: Account, log: seq<Event>, e: Event, n: nat)
    requires StoryOf(log, n) == NotYet && e.Registered? && e.id == n
    ensures SettledSum(acc, log + [e], n + 1) == SettledSum(acc, log, n)
  {
    OthersUntouched(log, [e], n);
    ReplayOne(NotYet, e, n);
    SettledOther(acc, log, log + [e], n, n);
  }

  lemma {:induction false} RegisteredEntry(acc: Account, log: seq<Event>, e: Event)
    requires e.Registered?
    ensures SumLog(log + [e], EntryOf(acc)) == SumLog(log, EntryOf(acc))
  {
    SumLogAppend(log, [e], EntryOf(acc));
    SumOne(e, EntryOf(acc));
  }

  lemma {:induction false} RegisteredBooks(acc: Account, h: House, seller: nat, price: int, buynow: int, item: Item)
    requires Core(h) && Someone(acc) && Count(h.db, seller, false) < MAX_SALES
    ensures Balance(acc, Register(h, seller, price, buynow, item)) == Balance(acc, h)
  {
    var e := Registered(h.nextId, seller, price, buynow, Listed(item));
    assert StoryOf(h.log, h.nextId) == NotYet && h.nextId !in h.db;
    TotalUpdate(h.db, HeldOf(acc), h.nextId, Auction(seller, 0, price, buynow, Listed(item), h.nextTimer));
    RegisteredEntry(acc, h.log, e);
    RegisteredSettles(acc, h.log, e, h.nextId);
  }

  lemma {:induction false} RegisterBooks(acc: Account, h: House, seller: nat, price: int, buynow: int, item: Item)
    requires Inv(h) && Someone(acc)
    ensures Balance(acc, Register(h, seller, price, buynow, item)) == Balance(acc, h)
  {
    if Count(h.db, seller, false) >= MAX_SALES {
      SaidBooks(acc, h, RegisterRefused(seller));
    } else {
      RegisteredBooks(acc, h, seller, price, buynow, item);
    }
  }

  lemma {:induction false} CancelEntries(acc: Account, id: nat, a: Auction, charId: nat)
    requires a.buyer == 0 && Someone(acc)
    ensures SumLog([ItemMail(id, a.seller, a.item, 205), CancelReply(charId, 0)], EntryOf(acc)) == 0
    ensures Held(acc, a) == 0 && Settled(acc, Gone(DealOf(a))) == 0
  {
    SumTwo(ItemMail(id, a.seller, a.item, 205), CancelReply(charId, 0), EntryOf(acc));
  }

  /** An auction that ends settles what it held. */
  lemma {:induction false} EvenBooks(acc: Account, h: House, id: nat, more: seq<Event>, h': House)
    requires Core(h) && id in h.db && OnlyAbout(more, id) && h' == Say(Delete(h, id), more)
    requires Replay(OnSale(DealOf(h.db[id])), more, id) == Gone(DealOf(h.db[id]))
    requires SumLog(more, EntryOf(acc)) == Held(acc, h.db[id]) - Settled(acc, Gone(DealOf(h.db[id])))
    ensures Balance(acc, h') == Balance(acc, h)
  {
    EndedBooks(acc, h, id, more);
  }

  /** A refusal books nothing. */
  lemma {:induction false} RefusalBooks(acc: Account, h: House, e: Event, h': House)
    requires Aside(e) && Entry(acc, e) == 0 && h' == Say(h, [e])
    ensures Balance(acc, h') == Balance(acc, h)
  {
    SaidBooks(acc, h, e);
  }

  lemma {:induction false} CancelBooks(acc: Account, h: House, charId: nat, id: nat)
    requires Inv(h) && Someone(acc)
    ensures Balance(acc, Cancel(h, charId, id)) == Balance(acc, h)
  {
    var h' := Cancel(h, charId, id);
    if id in h.db && h.db[id].seller == charId && h.db[id].buyer == 0 {
      CancelledTold(id, h.db[id], charId);
      CancelEntries(acc, id, h.db[id], charId);
      EvenBooks(acc, h, id, [ItemMail(id, h.db[id].seller, h.db[id].item, 205), CancelReply(charId, 0)], h');
    } else {
      var result := if id !in h.db then 1 else if h.db[id].seller != charId then 2 else 3;
      RefusalBooks(acc, h, CancelReply(charId, result), h');
    }
  }

  lemma {:induction false} ClosingEntries(acc: Account, id: nat, a: Auction, charId: nat)
    requires a.buyer != 0 && a.price < a.buynow
    ensures SumLog(Closing(id, a, charId), EntryOf(acc)) == Held(acc, a) - Settled(acc, Gone(DealOf(a)))
  {
    var more := Closing(id, a, charId);
    SumFour(more[0], more[1], more[2], more[3], EntryOf(acc));
  }

  lemma {:induction false} CloseBooks(acc: Account, h: House, charId: nat, id: nat)
    requires Inv(h)
    ensures Balance(acc, Close(h, charId, id)) == Balance(acc, h)
  {
    var h' := Close(h, charId, id);
    if id in h.db && h.db[id].seller == charId && h.db[id].buyer != 0 {
      ClosedTold(id, h.db[id], charId);
      ClosingEntries(acc, id, h.db[id], charId);
      EvenBooks(acc, h, id, Closing(id, h.db[id], charId), h');
    } else {
      RefusalBooks(acc, h, CloseReply(charId, if id !in h.db then 2 else 1), h');
    }
  }

  lemma {:induction false} ExpiryEntries(acc: Account, id: nat, a: Auction)
    requires Someone(acc) && (a.buyer != 0 ==> a.price < a.buynow)
    ensures SumLog(Expiry(id, a), EntryOf(acc)) == Held(acc, a) - Settled(acc, Gone(DealOf(a)))
  {
    var more := Expiry(id, a);
    if a.buyer != 0 {
      SumThree(more[0], more[1], more[2], EntryOf(acc));
    } else {
      SumOne(more[0], EntryOf(acc));
    }
  }

  lemma {:induction false} ExpireBooks(acc: Account, h: House, timer: nat)
    requires Inv(h) && Someone(acc)
    ensures Balance(acc, Expire(h, timer)) == Balance(acc, h)
  {
    if timer in h.timers {
      var id := h.timers[timer];
      ExpireDeletes(h, timer);
      ExpiredTold(id, h.db[id]);
      ExpiryEntries(acc, id, h.db[id]);
      EvenBooks(acc, h, id, Expiry(id, h.db[id]), Expire(h, timer));
    }
  }

  lemma {:induction false} RefundEntries(acc: Account, id: nat, a: Auction, charId: nat, bid: int)
    requires Someone(acc)
    ensures SumLog(Refund(id, a, charId) + [Accepted(id, charId, bid)], EntryOf(acc)) == Held(acc, a)
  {
    var e, f := Accepted(id, charId, bid), EntryOf(acc);
    if a.buyer == 0 {
      assert [] + [e] == [e];
      SumOne(e, f);
    } else if a.buyer != charId {
      var z, m := ZenyMail(id, a.buyer, a.price, 208), Message(a.buyer, 7);
      assert [z, m] + [e] == [z, m, e];
      SumThree(z, m, e, f);
    } else {
      var z := ZenyMail(id, a.buyer, a.price, 209);
      assert [z] + [e] == [z, e];
      SumTwo(z, e, f);
    }
  }

  /** The bid is now what the auction holds. */
  lemma {:induction false} BiddingBooks(acc: Account, h: House, charId: nat, id: nat, bid: int)
    requires id in h.db && Someone(acc)
    requires acc.Everybody? || (Core(h) && charId != 0 && charId != h.db[id].seller && h.db[id].price < bid)
    ensures Balance(acc, Bidding(h, charId, id, bid)) ==
            Balance(acc, h) + Held(acc, h.db[id].(buyer := charId, price := bid))
  {
    var a := h.db[id];
    var more := Refund(id, a, charId) + [Accepted(id, charId, bid)];
    TotalUpdate(h.db, HeldOf(acc), id, a.(buyer := charId, price := bid));
    RefundEntries(acc, id, a, charId, bid);
    BalanceMoves(acc, h, Bidding(h, charId, id, bid), more, id);
    if !acc.Everybody? {
      RefundTold(id, a, charId, bid);
    }
  }

  lemma {:induction false} SoldEntries(acc: Account, id: nat, a: Auction, charId: nat, bid: int)
    requires bid >= a.buynow && (acc.Everybody? || charId != 0)
    ensures var deal := DealOf(a.(buyer := charId, price := bid));
            SumLog(SoldAtOnce(id, a, charId, bid), EntryOf(acc)) + Settled(acc, Gone(deal)) ==
            Income(acc, PBid(charId, id, bid))
  {
    var more := SoldAtOnce(id, a, charId, bid);
    SumFour(more[0], more[1], more[2], more[3], EntryOf(acc));
  }

  lemma {:induction false} BuyOutBooks(acc: Account, h: House, charId: nat, id: nat, bid: int)
    requires id in h.db && Someone(acc) && bid >= h.db[id].buynow
    requires acc.Everybody? || (Core(h) && charId != 0 && charId != h.db[id].seller && h.db[id].price < bid)
    ensures Balance(acc, AcceptBid(h, charId, id, bid)) == Balance(acc, h) + Income(acc, PBid(charId, id, bid))
  {
    var bidding := Bidding(h, charId, id, bid);
    var a := bidding.db[id];
    var more := SoldAtOnce(id, h.db[id], charId, bid);
    BiddingBooks(acc, h, charId, id, bid);
    SoldEntries(acc, id, h.db[id], charId, bid);
    TotalWithout(bidding.db, HeldOf(acc), id);
    BalanceMoves(acc, bidding, Say(Delete(bidding, id), more), more, id);
    if !acc.Everybody? {
      AcceptedTold(h, charId, id, bid);
      SoldAtOnceTold(id, h.db[id], charId, bid);
    }
  }

  lemma {:induction false} TableAside(acc: Account, h: House, table: map<nat, Row>)
    ensures Balance(acc, h.(table := table)) == Balance(acc, h)
  {
  }

  lemma {:induction false} RaiseBooks(acc: Account, h: House, charId: nat, id: nat, bid: int)
    requires id in h.db && bid < h.db[id].buynow
    ensures Balance(acc, AcceptBid(h, charId, id, bid)) == Balance(acc, Bidding(h, charId, id, bid))
  {
    var bidding := Bidding(h, charId, id, bid);
    var table := h.table[id := RowOf(bidding.db[id])];
    TableAside(acc, bidding, table);
    SaidBooks(acc, bidding.(table := table), BidReply(charId, 0, 1));
  }

  lemma {:induction false} RefusedBooks(acc: Account, h: House, charId: nat, id: nat, bid: int, result: nat)
    ensures Balance(acc, Say(h, [BidReply(charId, bid, result)])) ==
            Balance(acc, h) + Income(acc, PBid(charId, id, bid))
  {
    SaidBooks(acc, h, BidReply(charId, bid, result));
  }

  lemma {:induction false} RaisedBooks(acc: Account, h: House, charId: nat, id: nat, bid: int)
    requires Inv(h) && Someone(acc) && id in h.db && charId != 0 && charId != h.db[id].seller
    requires h.db[id].price < bid < h.db[id].buynow
    ensures Balance(acc, AcceptBid(h, charId, id, bid)) == Balance(acc, h) + Income(acc, PBid(charId, id, bid))
  {
    BiddingBooks(acc, h, charId, id, bid);
    RaiseBooks(acc, h, charId, id, bid);
  }

  lemma {:induction false} BidBooks(acc: Account, h: House, charId: nat, id: nat, bid: int)
    requires Inv(h) && Someone(acc) && charId != 0
    ensures Balance(acc, Bid(h, charId, id, bid)) == Balance(acc, h) + Income(acc, PBid(charId, id, bid))
  {
    if id !in h.db || h.db[id].price >= bid || h.db[id].seller == charId {
      RefusedBooks(acc, h, charId, id, bid, 0);
    } else if TooManyBids(h, charId, h.db[id], bid) {
      RefusedBooks(acc, h, charId, id, bid, 9);
    } else if bid >= h.db[id].buynow {
      BuyOutBooks(acc, h, charId, id, bid);
    } else {
      RaisedBooks(acc, h, charId, id, bid);
    }
  }

  /** On every account, a bid packet books exactly the zeny that came with it from that character, and every other
      packet books nothing. */
  lemma {:induction false} HandleBooks(acc: Account, h: House, p: Packet)
    requires Inv(h) && Sound(h, p) && Someone(acc)
    ensures Balance(acc, Handle(h, p)) == Balance(acc, h) + Income(acc, p)
  {
    match p
    case PRegister(seller, price, buynow, item) => RegisterBooks(acc, h, seller, price, buynow, item);
    case PCancel(charId, id) => CancelBooks(acc, h, charId, id);
    case PClose(charId, id) => CloseBooks(acc, h, charId, id);
    case PBid(charId, id, bid) => BidBooks(acc, h, charId, id, bid);
    case PTimer(timer) => ExpireBooks(acc, h, timer);
    case PRestart(ids) => RestartBooks(acc, h, ids);
  }

  function Incomes(acc: Account, ps: seq<Packet>): int {
    if ps == [] then 0 else Income(acc, ps[0]) + Incomes(acc, ps[1..])
  }

  lemma {:induction false} RunBooks(acc: Account, h: House, ps: seq<Packet>)
    requires Inv(h) && SoundRun(h, ps) && Someone(acc)
    ensures Inv(Run(h, ps)) && Balance(acc, Run(h, ps)) == Balance(acc, h) + Incomes(acc, ps)
    decreases |ps|
  {
    if ps != [] {
      HandleKeeps(h, ps[0]);
      HandleBooks(acc, h, ps[0]);
      RunBooks(acc, Handle(h, ps[0]), ps[1..]);
    }
  }

  lemma {:induction false} EmptyHouse(acc: Account)
    ensures Inv(EMPTY) && Balance(acc, EMPTY) == 0
  {
    assert StoryOf([], 0) == NotYet && SettledSum(acc, [], 0) == 0;
  }

  lemma {:induction false} AllBooks(acc: Account, ps: seq<Packet>)
    requires SoundRun(EMPTY, ps) && Someone(acc)
    ensures Balance(acc, Run(EMPTY, ps)) == Incomes(acc, ps)
  {
    EmptyHouse(acc);
    RunBooks(acc, EMPTY, ps);
  }

  // ----- what the accounts say -----

  function MailedBy(e: Event): int { if e.ZenyMail? then e.zeny else 0 }
  function ReturnedBy(e: Event): int { if e.BidReply? then e.zeny else 0 }
  function EscrowOf(a: Auction): int { if a.buyer != 0 then a.price else 0 }

  function ZenyMailed(log: seq<Event>): int { SumLog(log, MailedBy) }
  function ZenyReturned(log: seq<Event>): int { SumLog(log, ReturnedBy) }
  ghost function Escrow(db: map<nat, Auction>): int { Total(db, EscrowOf) }

  function ZenyBid(ps: seq<Packet>): int {
    if ps == [] then 0 else (if ps[0].PBid? then ps[0].bid else 0) + ZenyBid(ps[1..])
  }

  ghost function Accounted(h: House): int { ZenyMailed(h.log) + ZenyReturned(h.log) + Escrow(h.db) }

  lemma {:induction false} SumOfBoth(log: seq<Event>)
    ensures SumLog(log, EntryOf(Everybody)) == ZenyMailed(log) + ZenyReturned(log)
  {
    if log != [] {
      SumOfBoth(log[..|log| - 1]);
    }
  }

  lemma {:induction false} NothingSettled(acc: Account, log: seq<Event>, n: nat)
    requires !acc.Bidder? && !acc.Seller?
    ensures SettledSum(acc, log, n) == 0
    decreases n
  {
    if n > 0 {
      NothingSettled(acc, log, n - 1);
    }
  }

  lemma {:induction false} SameTotal(db: map<nat, Auction>, f: Auction -> int, g: Auction -> int)
    requires forall a: Auction :: f(a) == g(a)
    ensures Total(db, f) == Total(db, g)
    decreases |db|
  {
    if db != map[] {
      var k :| k in db;
      TotalWithout(db, f, k);
      TotalWithout(db, g, k);
      SameTotal(db - {k}, f, g);
    }
  }

  lemma {:induction false} EverybodyIsAccounted(h: House)
    ensures Balance(Everybody, h) == Accounted(h)
  {
    SumOfBoth(h.log);
    NothingSettled(Everybody, h.log, h.nextId);
    SameTotal(h.db, HeldOf(Everybody), EscrowOf);
  }

  lemma {:induction false} AllIncome(ps: seq<Packet>)
    ensures Incomes(Everybody, ps) == ZenyBid(ps)
  {
    if ps != [] {
      AllIncome(ps[1..]);
    }
  }

  /** Over every run from an empty house: the zeny that came in with bids is the zeny mailed, plus the
      zeny returned in bid replies, plus the prices of the live auctions that have a buyer. */
  lemma {:induction false} ZenyIsConserved(ps: seq<Packet>)
    requires SoundRun(EMPTY, ps)
    ensures var h := Run(EMPTY, ps);
            ZenyBid(ps) == ZenyMailed(h.log) + ZenyReturned(h.log) + Escrow(h.db)
  {
    AllBooks(Everybody, ps);
    EverybodyIsAccounted(Run(EMPTY, ps));
    AllIncome(ps);
  }

  /** What character `c` has bid. */
  function BidBy(ps: seq<Packet>, c: nat): int {
    if ps == [] then 0 else (if ps[0].PBid? && ps[0].charId == c then ps[0].bid else 0) + BidBy(ps[1..], c)
  }

  /** Refunds mailed to `c`, and zeny returned in replies to `c`. */
  function PaidBackTo(log: seq<Event>, c: nat): int { SumLog(log, EntryOf(Bidder(c))) }

  /** The prices of the live auctions that `c` leads. */
  ghost function LedBy(db: map<nat, Auction>, c: nat): int { Total(db, HeldOf(Bidder(c))) }

  /** The sale prices of the auctions that `c` won, and of those that `c` sold. */
  ghost function SpentBy(h: House, c: nat): int { SettledSum(Bidder(c), h.log, h.nextId) }
  ghost function EarnedBy(h: House, c: nat): int { SettledSum(Seller(c), h.log, h.nextId) }

  /** Zeny mailed to `c` other than refunds. */
  function ProceedsTo(log: seq<Event>, c: nat): int { -SumLog(log, EntryOf(Seller(c))) }

  lemma {:induction false} IncomeOfBidder(ps: seq<Packet>, c: nat)
    ensures Incomes(Bidder(c), ps) == BidBy(ps, c)
  {
    if ps != [] {
      IncomeOfBidder(ps[1..], c);
    }
  }

  lemma {:induction false} NoIncome(acc: Account, ps: seq<Packet>)
    requires !acc.Bidder? && !acc.Everybody?
    ensures Incomes(acc, ps) == 0
  {
    if ps != [] {
      NoIncome(acc, ps[1..]);
    }
  }

  lemma {:induction false} NothingHeld(acc: Account, db: map<nat, Auction>)
    requires !acc.Bidder? && !acc.Everybody?
    ensures Total(db, HeldOf(acc)) == 0
    decreases |db|
  {
    if db != map[] {
      var k :| k in db;
      TotalWithout(db, HeldOf(acc), k);
      NothingHeld(acc, db - {k});
    }
  }

  /** Over every run, for every character: what it bid is what it got back, plus the prices of the auctions it leads,
      plus the sale prices of the auctions it won. And what it was mailed as a seller is the sale prices of the auctions
      it sold. */
  lemma {:induction false} EveryCharactersBooks(ps: seq<Packet>, c: nat)
    requires SoundRun(EMPTY, ps) && c != 0
    ensures var h := Run(EMPTY, ps);
            && BidBy(ps, c) == PaidBackTo(h.log, c) + LedBy(h.db, c) + SpentBy(h, c)
            && ProceedsTo(h.log, c) == EarnedBy(h, c)
  {
    AllBooks(Bidder(c), ps);
    IncomeOfBidder(ps, c);
    AllBooks(Seller(c), ps);
    NoIncome(Seller(c), ps);
    NothingHeld(Seller(c), Run(EMPTY, ps).db);
  }

  function MessagesTo(log: seq<Event>, c: nat, result: nat): int { SumLog(log, MessageEntry(c, result)) }
  function MessageEntry(c: nat, result: nat): Event -> int { (e: Event) => if e == Message(c, result) then 1 else 0 }

  /** Items won that were mailed to `c`, and refunds to `c` because somebody else bid more. */
  function PrizesTo(log: seq<Event>, c: nat): int { SumLog(log, PrizeEntry(c)) }
  function PrizeEntry(c: nat): Event -> int {
    (e: Event) => if e.ItemMail? && IsPrize(e.text) && e.dest == c then 1 else 0
  }
  function OutbidsOf(log: seq<Event>, c: nat): int { SumLog(log, OutbidEntry(c)) }
  function OutbidEntry(c: nat): Event -> int {
    (e: Event) => if e.ZenyMail? && e.text == 208 && e.dest == c then 1 else 0
  }

  lemma {:induction false} MessageEntries(log: seq<Event>, c: nat)
    ensures SumLog(log, EntryOf(Winner(c))) == MessagesTo(log, c, 6) - PrizesTo(log, c)
    ensures SumLog(log, EntryOf(Loser(c))) == MessagesTo(log, c, 7) - OutbidsOf(log, c)
  {
    if log != [] {
      MessageEntries(log[..|log| - 1], c);
    }
  }

  /** Over every run each character is told once of every auction it won, and of every time it was outbid. */
  lemma {:induction false} EveryoneIsTold(ps: seq<Packet>, c: nat)
    requires SoundRun(EMPTY, ps)
    ensures var h := Run(EMPTY, ps);
            MessagesTo(h.log, c, 6) == PrizesTo(h.log, c) && MessagesTo(h.log, c, 7) == OutbidsOf(h.log, c)
  {
    var h := Run(EMPTY, ps);
    AllBooks(Winner(c), ps);
    AllBooks(Loser(c), ps);
    NoIncome(Winner(c), ps);
    NoIncome(Loser(c), ps);
    NothingHeld(Winner(c), h.db);
    NothingHeld(Loser(c), h.db);
    NothingSettled(Winner(c), h.log, h.nextId);
    NothingSettled(Loser(c), h.log, h.nextId);
    MessageEntries(h.log, c);
  }

  /** Over every run from an empty house: each auction ever registered is live with one pending timer and held by its
      last bidder (or its seller) at the last price bid, or it is over; no story is ever broken, so prices only rose,
      each bidder was paid back when the next one bid, and in the end item and sale price went to the right hands, once;
      nobody is over the limits. */
  lemma {:induction false} ItemsAreConserved(ps: seq<Packet>)
    requires SoundRun(EMPTY, ps)
    ensures var h := Run(EMPTY, ps);
            && Linked(h) && Told(h) && WithinLimits(h.db)
            && (forall id: nat :: StoryOf(h.log, id) != Broken)
            && (forall id: nat :: 0 < id < h.nextId ==> (id in h.db <==> !StoryOf(h.log, id).Gone?))
  {
    EmptyHouse(Everybody);
    RunBooks(Everybody, EMPTY, ps);
  }

  /** Character id 0 stands for "nobody": a bid accepted from it keeps the books exactly when it buys
      the item out or is for nothing. */
  lemma {:induction false} BidsFromNobody(h: House, id: nat, bid: int)
    requires id in h.db && h.db[id].price < bid && h.db[id].seller != 0 && !TooManyBids(h, 0, h.db[id], bid)
    ensures Accounted(Bid(h, 0, id, bid)) == Accounted(h) + bid <==> bid >= h.db[id].buynow || bid == 0
  {
    EverybodyIsAccounted(h);
    EverybodyIsAccounted(Bid(h, 0, id, bid));
    if bid >= h.db[id].buynow {
      BuyOutBooks(Everybody, h, 0, id, bid);
    } else {
      BiddingBooks(Everybody, h, 0, id, bid);
      RaiseBooks(Everybody, h, 0, id, bid);
    }
  }

  // ----- who may do what -----

  function SalesOf(db: map<nat, Auction>, c: nat): set<nat> { set id | id in db && db[id].seller == c }
  function BidsOf(db: map<nat, Auction>, c: nat): set<nat> { set id | id in db && db[id].buyer == c }

  lemma {:induction false} CountIs(db: map<nat, Auction>, c: nat)
    ensures Count(db, c, false) == |SalesOf(db, c)| && Count(db, c, true) == |BidsOf(db, c)|
  {
    TotalCounts(db, Sells(c));
    TotalCounts(db, Leads(c));
    assert Ones(db, Sells(c)) == SalesOf(db, c) && Ones(db, Leads(c)) == BidsOf(db, c);
  }

  /** The packets and timers that end auction `id`: its seller cancels it while nobody has bid, or closes it once
      somebody has; somebody else bids the buy-out price; or its timer goes off. */
  ghost predicate Ends(h: House, p: Packet, id: nat)
    requires id in h.db
  {
    var a := h.db[id];
    match p
    case PCancel(charId, other) => other == id && charId == a.seller && a.buyer == 0
    case PClose(charId, other) => other == id && charId == a.seller && a.buyer != 0
    case PBid(charId, other, bid) => other == id && charId != a.seller && bid > a.price && bid >= a.buynow
    case PTimer(timer) => timer == a.timer
    case _ => false
  }

  /** The bids that are taken without ending the auction: somebody else than the seller bids more than the last price
      and less than the buy-out price, and leads the auction already or fewer than five others. */
  ghost predicate Raises(h: House, p: Packet, id: nat)
    requires id in h.db
  {
    var a := h.db[id];
    && p.PBid? && p.id == id && p.charId != a.seller && a.price < p.bid < a.buynow
    && (p.charId == a.buyer || |BidsOf(h.db, p.charId)| < 5)
  }

  /** An auction is over exactly after what ends it, its leader and price change exactly with a bid that is taken, and
      otherwise it stays as it is, up to its timer after a restart. */
  lemma {:induction false} OnlyTheEntitledActOn(h: House, p: Packet, id: nat)
    requires Inv(h) && Sound(h, p) && id in h.db
    ensures var h' := Handle(h, p);
            && (id in h'.db <==> !Ends(h, p, id))
            && (id in h'.db ==>
                  if Raises(h, p, id) then DealOf(h'.db[id]) == DealOf(h.db[id]).(buyer := p.charId, price := p.bid)
                  else DealOf(h'.db[id]) == DealOf(h.db[id]))
  {
    match p
    case PRestart(ids) => RestartRestores(h, ids);
    case PTimer(timer) => if timer in h.timers { ExpireDeletes(h, timer); }
    case PBid(charId, _, _) => CountIs(h.db, charId);
    case _ =>
  }

  /** An auction is new exactly when its seller has fewer than five on sale. Then nobody has bid on it, and one
      identified item that does not expire is for sale. */
  lemma {:induction false} RegisteredExactlyWhen(h: House, seller: nat, price: int, buynow: int, item: Item)
    requires Inv(h)
    ensures var h' := Handle(h, PRegister(seller, price, buynow, item));
            && (h.nextId in h'.db <==> |SalesOf(h.db, seller)| < 5)
            && (h.nextId in h'.db ==>
                  DealOf(h'.db[h.nextId]) == Deal(seller, 0, price, buynow, Item(item.stored, 1, 1, 0)))
            && forall id | id in h.db :: id in h'.db && h'.db[id] == h.db[id]
  {
    CountIs(h.db, seller);
    assert h.nextId !in h.db;
    RegisteredIs(h, seller, price, buynow, item);
  }

  lemma {:induction false} RegisteredIs(h: House, seller: nat, price: int, buynow: int, item: Item)
    requires h.nextId !in h.db
    ensures var h' := Handle(h, PRegister(seller, price, buynow, item));
            && (h.nextId in h'.db <==> Count(h.db, seller, false) < 5)
            && (h.nextId in h'.db ==>
                  DealOf(h'.db[h.nextId]) == Deal(seller, 0, price, buynow, Item(item.stored, 1, 1, 0)))
            && forall id | id in h.db :: id in h'.db && h'.db[id] == h.db[id]
  {
  }

  function Last(log: seq<Event>): Event
    requires log != []
  {
    log[|log| - 1]
  }

  /** Cancelling replies 1 for an unknown auction, 2 to others than the seller, 3 after a bid, and 0 when the auction
      is over. */
  lemma {:induction false} CancelIsAnswered(h: House, charId: nat, id: nat)
    requires Inv(h)
    ensures var h' := Cancel(h, charId, id);
            var result := if id !in h.db then 1 else if h.db[id].seller != charId then 2
                          else if h.db[id].buyer != 0 then 3 else 0;
            Last(h'.log) == CancelReply(charId, result) && (id in h'.db <==> id in h.db && result != 0)
  {
  }

  /** Closing replies 2 for an unknown auction, 1 to others than the seller and before a bid, and 0 when the auction is
      over. */
  lemma {:induction false} CloseIsAnswered(h: House, charId: nat, id: nat)
    requires Inv(h)
    ensures var h' := Close(h, charId, id);
            var result := if id !in h.db then 2 else if h.db[id].seller != charId || h.db[id].buyer == 0 then 1 else 0;
            Last(h'.log) == CloseReply(charId, result) && (id in h'.db <==> id in h.db && result != 0)
  {
  }

  /** A bid is returned whole with the result 0 when the auction is unknown or the bidder's own or the bid is too low,
      and with the result 9 when the bidder leads five others and does not buy out. Any other bid is accepted after the
      previous bidder is paid back, and what exceeds the buy-out price is returned. */
  lemma {:induction false} BidsAreAnswered(h: House, charId: nat, id: nat, bid: int)
    requires Inv(h) && charId != 0
    ensures var h' := Bid(h, charId, id, bid);
            if id !in h.db || bid <= h.db[id].price || h.db[id].seller == charId
            then h' == Say(h, [BidReply(charId, bid, 0)])
            else
              var a := h.db[id];
              if charId != a.buyer && bid < a.buynow && |BidsOf(h.db, charId)| >= 5
              then h' == Say(h, [BidReply(charId, bid, 9)])
              else h.log + Refund(id, a, charId) + [Accepted(id, charId, bid)] +
                   [BidReply(charId, if bid >= a.buynow then bid - a.buynow else 0, 1)] <= h'.log
  {
    CountIs(h.db, charId);
    if id in h.db && h.db[id].price < bid && h.db[id].seller != charId && !TooManyBids(h, charId, h.db[id], bid) {
      BidIsAnswered(h, charId, id, bid);
    }
  }

  lemma {:induction false} BidIsAnswered(h: House, charId: nat, id: nat, bid: int)
    requires id in h.db
    ensures var a := h.db[id];
            h.log + Refund(id, a, charId) + [Accepted(id, charId, bid)] +
            [BidReply(charId, if bid >= a.buynow then bid - a.buynow else 0, 1)] <= AcceptBid(h, charId, id, bid).log
  {
    var a := h.db[id];
    var more := Refund(id, a, charId) + [Accepted(id, charId, bid)];
    assert h.log + more == h.log + Refund(id, a, charId) + [Accepted(id, charId, bid)];
    assert Bidding(h, charId, id, bid).log == h.log + more;
    var log := AcceptBid(h, charId, id, bid).log;
    assert log == h.log + more + if bid >= a.buynow then SoldAtOnce(id, a, charId, bid) else [BidReply(charId, 0, 1)];
  }

  // ----- 32-bit amounts -----

  const INT32_MAX: int := 0x7fff_ffff

  predicate Fits(zeny: int) { -INT32_MAX - 1 <= zeny <= INT32_MAX }

  predicate PricesFit(db: map<nat, Auction>) {
    forall id | id in db :: 0 <= db[id].price <= INT32_MAX && 0 <= db[id].buynow <= INT32_MAX
  }

  predicate AmountFits(e: Event) {
    match e
    case ZenyMail(_, _, zeny, _) => 0 <= zeny <= INT32_MAX
    case BidReply(_, zeny, _) => Fits(zeny)
    case _ => true
  }

  predicate PacketFits(p: Packet) {
    match p
    case PRegister(_, price, buynow, _) => 0 <= price <= INT32_MAX && 0 <= buynow <= INT32_MAX
    case PBid(_, _, bid) => Fits(bid)
    case _ => true
  }

  predicate LogFits(log: seq<Event>) { forall i | 0 <= i < |log| :: AmountFits(log[i]) }

  lemma {:induction false} SaidFits(log: seq<Event>, more: seq<Event>)
    requires LogFits(log) && LogFits(more)
    ensures LogFits(log + more)
  {
  }

  lemma {:induction false} BidFits(h: House, charId: nat, id: nat, bid: int)
    requires Fits(bid) && PricesFit(h.db) && LogFits(h.log)
    ensures PricesFit(Bid(h, charId, id, bid).db) && LogFits(Bid(h, charId, id, bid).log)
  {
    if id in h.db && h.db[id].price < bid {
      SaidFits(h.log, Refund(id, h.db[id], charId) + [Accepted(id, charId, bid)]);
    }
  }

  /** No amount mailed or returned ever leaves the 32-bit range, and nothing negative is mailed. */
  lemma {:induction false} HandleFits(h: House, p: Packet)
    requires Inv(h) && Sound(h, p) && PacketFits(p) && PricesFit(h.db) && LogFits(h.log)
    ensures PricesFit(Handle(h, p).db) && LogFits(Handle(h, p).log)
  {
    match p
    case PBid(charId, id, bid) => BidFits(h, charId, id, bid);
    case PRestart(ids) => RestartRestores(h, ids);
    case PTimer(timer) => ExpireFits(h, timer);
    case PClose(charId, id) => CloseFits(h, charId, id);
    case _ =>
  }

  lemma {:induction false} ExpireFits(h: House, timer: nat)
    requires PricesFit(h.db) && LogFits(h.log)
    ensures PricesFit(Expire(h, timer).db) && LogFits(Expire(h, timer).log)
  {
  }

  lemma {:induction false} CloseFits(h: House, charId: nat, id: nat)
    requires PricesFit(h.db) && LogFits(h.log)
    ensures PricesFit(Close(h, charId, id).db) && LogFits(Close(h, charId, id).log)
  {
  }

  lemma {:induction false} AmountsFit(h: House, ps: seq<Packet>)
    requires Inv(h) && SoundRun(h, ps) && PricesFit(h.db) && LogFits(h.log)
    requires forall p | p in ps :: PacketFits(p)
    ensures PricesFit(Run(h, ps).db) && LogFits(Run(h, ps).log)
    decreases |ps|
  {
    if ps != [] {
      HandleFits(h, ps[0]);
      HandleKeeps(h, ps[0]);
      AmountsFit(Handle(h, ps[0]), ps[1..]);
    }
  }

  // ----- the handlers as the program has them -----

  class AuctionServer {
    var auctionDb: map<nat, Auction>
    var timers: map<nat, nat>
    var table: map<nat, Row>
    var nextId: nat
    var nextTimer: nat
    var log: seq<Event>

    ghost function Abs(): House
      reads this
    {
      House(auctionDb, timers, table, nextId, nextTimer, log)
    }

    constructor ()
      ensures Abs() == EMPTY
    {
      auctionDb, timers, table, nextId, nextTimer, log := map[], map[], map[], 1, 0, [];
    }

    method CountAuctions(charId: nat, buy: bool) returns (i: int)
      ensures i == Count(auctionDb, charId, buy)
    {
      ghost var f := if buy then Leads(charId) else Sells(charId);
      i := 0;
      var rest := auctionDb;
      while rest != map[]
        invariant i + Total(rest, f) == Total(auctionDb, f)
        decreases |rest|
      {
        var id :| id in rest;
        TotalWithout(rest, f, id);
        var auction := rest[id];
        if (buy && auction.buyer == charId) || (!buy && auction.seller == charId) {
          i := i + 1;
        }
        rest := rest - {id};
      }
    }

    method DeleteAuction(id: nat)
      requires id in auctionDb
      modifies this
      ensures Abs() == Delete(old(Abs()), id)
    {
      table := table - {id};
      timers := timers - {auctionDb[id].timer};
      auctionDb := auctionDb - {id};
    }

    method AddTimer(id: nat) returns (timer: nat)
      modifies this`timers, this`nextTimer
      ensures timer == old(nextTimer) && nextTimer == old(nextTimer) + 1
      ensures timers == old(timers)[timer := id]
    {
      timer := nextTimer;
      timers := timers[timer := id];
      nextTimer := nextTimer + 1;
    }

    method ParseRegister(seller: nat, price: int, buynow: int, item: Item)
      modifies this
      ensures Abs() == Register(old(Abs()), seller, price, buynow, item)
    {
      var sales := CountAuctions(seller, false);
      if sales < MAX_SALES {
        var id := nextId;
        nextId := nextId + 1;
        table := table[id := Row(seller, 0, price, buynow, item.stored)];
        var timer := AddTimer(id);
        var auction := Auction(seller, 0, price, buynow, item.(amount := 1, identify := 1, expireTime := 0), timer);
        auctionDb := auctionDb[id := auction];
        log := log + [Registered(id, seller, price, buynow, auction.item)];
      } else {
        log := log + [RegisterRefused(seller)];
      }
    }

    method ParseCancel(charId: nat, id: nat)
      modifies this
      ensures Abs() == Cancel(old(Abs()), charId, id)
    {
      if id !in auctionDb {
        log := log + [CancelReply(charId, 1)];
        return;
      }
      var auction := auctionDb[id];
      if auction.seller != charId {
        log := log + [CancelReply(charId, 2)];
        return;
      }
      if auction.buyer > 0 {
        log := log + [CancelReply(charId, 3)];
        return;
      }
      log := log + [ItemMail(id, auction.seller, auction.item, 205)];
      DeleteAuction(id);
      log := log + [CancelReply(charId, 0)];
      assert log == old(log) + [ItemMail(id, auction.seller, auction.item, 205), CancelReply(charId, 0)];
    }

    method ParseClose(charId: nat, id: nat)
      modifies this
      ensures Abs() == Close(old(Abs()), charId, id)
    {
      if id !in auctionDb {
        log := log + [CloseReply(charId, 2)];
        return;
      }
      var auction := auctionDb[id];
      if auction.seller != charId {
        log := log + [CloseReply(charId, 1)];
        return;
      }
      if auction.buyer == 0 {
        log := log + [CloseReply(charId, 1)];
        return;
      }
      log := log + [ZenyMail(id, auction.seller, auction.price, 206)];
      log := log + [ItemMail(id, auction.buyer, auction.item, 207)];
      log := log + [Message(auction.buyer, 6)];
      DeleteAuction(id);
      log := log + [CloseReply(charId, 0)];
      assert log == old(log) + Closing(id, auction, charId);
    }

    method ParseBid(charId: nat, id: nat, bid: int)
      modifies this
      ensures Abs() == Bid(old(Abs()), charId, id, bid)
    {
      if id !in auctionDb || auctionDb[id].price >= bid || auctionDb[id].seller == charId {
        log := log + [BidReply(charId, bid, 0)];
        return;
      }
      var auction := auctionDb[id];
      var leading := CountAuctions(charId, true);
      if leading > 4 && bid < auction.buynow && auction.buyer != charId {
        log := log + [BidReply(charId, bid, 9)];
        return;
      }
      RefundBidder(id, auction, charId);
      auctionDb := auctionDb[id := auction.(buyer := charId)];
      auctionDb := auctionDb[id := auctionDb[id].(price := bid)];
      log := log + [Accepted(id, charId, bid)];
      assert log == old(log) + (Refund(id, auction, charId) + [Accepted(id, charId, bid)]);
      if bid >= auction.buynow {
        BuyOut(charId, id, bid);
      } else {
        table := table[id := RowOf(auctionDb[id])];
        log := log + [BidReply(charId, 0, 1)];
      }
    }

    method RefundBidder(id: nat, auction: Auction, charId: nat)
      modifies this`log
      ensures log == old(log) + Refund(id, auction, charId)
    {
      if auction.buyer > 0 {
        if auction.buyer != charId {
          log := log + [ZenyMail(id, auction.buyer, auction.price, 208)];
          log := log + [Message(auction.buyer, 7)];
        } else {
          log := log + [ZenyMail(id, auction.buyer, auction.price, 209)];
        }
      }
    }

    method BuyOut(charId: nat, id: nat, bid: int)
      requires id in auctionDb && auctionDb[id].buyer == charId
      modifies this
      ensures Abs() == Say(Delete(old(Abs()), id), SoldAtOnce(id, old(auctionDb[id]), charId, bid))
    {
      var auction := auctionDb[id];
      log := log + [BidReply(charId, bid - auction.buynow, 1)];
      log := log + [ItemMail(id, auction.buyer, auction.item, 210)];
      log := log + [Message(charId, 6)];
      log := log + [ZenyMail(id, auction.seller, auction.buynow, 211)];
      DeleteAuction(id);
      assert log == old(log) + SoldAtOnce(id, auction, charId, bid);
    }

    /** A pending timer goes off: it is no longer pending, so ending the auction does not delete it again. */
    method EndTimer(timer: nat)
      requires timer in timers
      modifies this
      ensures Abs() == Expire(old(Abs()), timer)
    {
      var id := timers[timer];
      timers := timers - {timer};
      if id in auctionDb {
        var auction := auctionDb[id];
        if auction.buyer != 0 {
          log := log + [ItemMail(id, auction.buyer, auction.item, 202)];
          log := log + [Message(auction.buyer, 6)];
          log := log + [ZenyMail(id, auction.seller, auction.price, 203)];
        } else {
          log := log + [ItemMail(id, auction.seller, auction.item, 204)];
        }
        assert log == old(log) + Expiry(id, auction);
        table := table - {id};
        auctionDb := auctionDb - {id};
      }
    }

    /** The server starts on an existing table whose SELECT yields the rows `ids`. */
    method LoadFromSql(ids: seq<nat>)
      requires IsSelect(ids, table)
      modifies this
      ensures Abs() == Restart(old(Abs()), ids)
    {
      auctionDb, timers := map[], map[];
      for i := 0 to |ids|
        invariant table == old(table)
        invariant LoadRows(Abs(), ids[i..]) == Restart(old(Abs()), ids)
      {
        var id := ids[i];
        var row := table[id];
        var timer := AddTimer(id);
        auctionDb := auctionDb[id := Auction(row.seller, row.buyer, row.price, row.buynow, Item(row.item, 1, 1, 0),
            timer)];
        assert ids[i..][1..] == ids[i + 1..];
      }
    }
  }
}
