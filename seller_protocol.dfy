/**
 * What the book seller's four message handlers and its broadcast tick compute,
 * as functions of the catalogue (a map from `title;state` keys to prices) and
 * the content of one received message, with the properties the protocol
 * relies on: the nearest-better fallback of offers, at most one sale per
 * listing, prices that only go down, and the payload round trips between
 * sellers.
 */
module SellerProtocol {
  import opened Wrappers
  import opened JavaText
  import opened Ladder

  /** The `catalogue` Hashtable: `title;state` to price. */
  type Catalogue = map<string, Int32>

  /** An agent identifier (the name of a JADE AID). */
  type AgentId = string

  /** The performatives the handlers answer with. */
  datatype Performative = Propose | Refuse | Inform | Failure

  /** A reply to the sender of the message being handled. */
  datatype Reply = Reply(performative: Performative, content: string)

  /** The QUERY_IF message the tick sends to the other sellers. */
  datatype Broadcast = QueryIf(receivers: seq<AgentId>, content: string)

  const NotAvailable: string := "not-available"

  function Min(a: int, b: int): int
  {
    if a <= b then a else b
  }

  // ---------------------------------------------------------------------
  // Catalogue keys
  // ---------------------------------------------------------------------

  /**
   * The catalogue key of a book in a given state. When the title holds no
   * `;`, the title is exactly what precedes the key's first `;`.
   */
  function Key(title: string, state: string): (k: string)
    ensures |k| == |title| + 1 + |state|
    ensures ';' !in title ==> k[..|title|] == title && k[|title|] == ';' && ';' !in k[..|title|]
  {
    title + ";" + state
  }

  /** A key splits back into its title and state when the title holds no `;`. */
  lemma KeySplits(title: string, state: string)
    requires ';' !in title && ';' !in state && state != []
    ensures Split(Key(title, state), ';') == [title, state]
  {
    SplitPair(title, state, ';');
  }

  // ---------------------------------------------------------------------
  // Offer requests (CFP)
  // ---------------------------------------------------------------------

  /**
   * The CFP content the offer handler can process without an exception: its
   * split on `;` has a second piece, and when the content itself is not a
   * stocked key that piece must be a ladder name for `better_state` to know it.
   */
  predicate OfferWellFormed(cat: Catalogue, content: string)
  {
    var parts := Split(content, ';');
    |parts| >= 2 && (content !in cat ==> Parse(parts[1]).Some?)
  }

  /**
   * The content of a PROPOSE: price, then the state offered. A buyer that
   * splits it on `;` reads back the same price and state.
   */
  function ProposeContent(price: Int32, state: string): (s: string)
    ensures ';' !in state && state != [] ==>
      |Split(s, ';')| == 2 && ParseInt(Split(s, ';')[0]) == Some(price) && Split(s, ';')[1] == state
  {
    var s := IntToString(price) + ";" + state;
    if ';' in state || state == [] then s
    else
      assert s == IntToString(price) + [';'] + state;
      SplitPair(IntToString(price), state, ';');
      ParseFormat(price);
      s
  }

  /**
   * The first condition strictly better than `c`, climbing `better_state`,
   * at which `title` is stocked; `None` when the climb reaches the sentinel.
   */
  function NearestStocked(cat: Catalogue, title: string, c: Condition): (r: Option<Condition>)
    ensures r.Some? ==> StateNum(c) < StateNum(r.value) && Key(title, Name(r.value)) in cat
    ensures r.Some? ==>
      forall d :: StateNum(c) < StateNum(d) < StateNum(r.value) ==> Key(title, Name(d)) !in cat
    ensures r.None? <==> forall d :: StateNum(c) < StateNum(d) ==> Key(title, Name(d)) !in cat
    decreases 4 - StateNum(c)
  {
    match BetterState(c)
    case None => None
    case Some(b) =>
      if Key(title, Name(b)) in cat then Some(b) else NearestStocked(cat, title, b)
  }

  /**
   * The reply of the offer handler: the content itself as a stocked key gives
   * a PROPOSE at its price; otherwise the nearest strictly better stocked state
   * of the title is proposed at its own price, and when there is none the
   * answer is REFUSE "not-available".
   */
  function OfferReply(cat: Catalogue, content: string): (r: Reply)
    requires OfferWellFormed(cat, content)
    ensures content in cat ==>
      r == Reply(Propose, ProposeContent(cat[content], Split(content, ';')[1]))
    ensures r.performative == Refuse <==>
      content !in cat &&
      forall d :: StateNum(Parse(Split(content, ';')[1]).value) < StateNum(d) ==>
        Key(Split(content, ';')[0], Name(d)) !in cat
    ensures r.performative == Refuse ==> r.content == NotAvailable
    ensures content !in cat && r.performative != Refuse ==>
      var title, n := Split(content, ';')[0], NearestStocked(cat, Split(content, ';')[0], Parse(Split(content, ';')[1]).value);
      n.Some? && r == Reply(Propose, ProposeContent(cat[Key(title, Name(n.value))], Name(n.value)))
  {
    var parts := Split(content, ';');
    if content in cat then Reply(Propose, ProposeContent(cat[content], parts[1]))
    else
      match NearestStocked(cat, parts[0], Parse(parts[1]).value)
      case Some(d) => Reply(Propose, ProposeContent(cat[Key(parts[0], Name(d))], Name(d)))
      case None => Reply(Refuse, NotAvailable)
  }

  /** `d` is the worst condition at least as good as `c` at which `title` is stocked. */
  ghost predicate IsNearestAtLeast(cat: Catalogue, title: string, c: Condition, d: Condition)
  {
    && StateNum(c) <= StateNum(d)
    && Key(title, Name(d)) in cat
    && forall e :: StateNum(c) <= StateNum(e) < StateNum(d) ==> Key(title, Name(e)) !in cat
  }

  /**
   * For a request `title;state` with a `;`-free title: the reply is REFUSE
   * exactly when no state at least as good as the requested one is stocked,
   * and otherwise a PROPOSE of the nearest such state at its own price.
   */
  lemma OfferByLadder(cat: Catalogue, title: string, c: Condition)
    requires ';' !in title
    ensures OfferWellFormed(cat, Key(title, Name(c)))
    ensures OfferReply(cat, Key(title, Name(c))).performative == Refuse <==>
      forall d :: StateNum(c) <= StateNum(d) ==> Key(title, Name(d)) !in cat
    ensures OfferReply(cat, Key(title, Name(c))).performative != Refuse ==>
      exists d :: IsNearestAtLeast(cat, title, c, d) &&
        OfferReply(cat, Key(title, Name(c))) == Reply(Propose, ProposeContent(cat[Key(title, Name(d))], Name(d)))
  {
    KeySplits(title, Name(c));
    var key := Key(title, Name(c));
    assert Split(key, ';')[0] == title && Split(key, ';')[1] == Name(c);
    assert Parse(Name(c)) == Some(c) by { match c { case _ => } }
    var r := OfferReply(cat, key);
    if key !in cat {
      var n := NearestStocked(cat, title, c);
      if n.Some? {
        assert r == Reply(Propose, ProposeContent(cat[Key(title, Name(n.value))], Name(n.value)));
        assert IsNearestAtLeast(cat, title, c, n.value);
      }
    } else {
      assert r == Reply(Propose, ProposeContent(cat[key], Name(c)));
      assert IsNearestAtLeast(cat, title, c, c);
    }
  }

  /** The Dune stock of the worked example: Good at 10, New at 15. */
  function DuneStock(): Catalogue
  {
    map["Dune;Good" := 10, "Dune;New" := 15]
  }

  lemma DuneStockFacts()
    ensures "Dune;Used" !in DuneStock() && "Dune;Damaged" !in DuneStock()
    ensures Key("Dune", Name(Good)) in DuneStock()
    ensures ProposeContent(DuneStock()[Key("Dune", Name(Good))], Name(Good)) == "10;Good"
  {
    assert "Dune;Used"[5] != "Dune;Good"[5];
    assert |"Dune;Damaged"| != |"Dune;Good"| && |"Dune;Damaged"| != |"Dune;New"|;
    assert Key("Dune", Name(Good)) == "Dune;Good";
    assert IntToString(10) == "10" by {
      assert NatToString(1) == "1";
      assert NatToString(10) == NatToString(1) + [DigitChar(0)];
    }
  }

  lemma DuneClimb()
    ensures NearestStocked(DuneStock(), "Dune", Used) == Some(Good)
    ensures NearestStocked(DuneStock(), "Dune", Damaged) == Some(Good)
  {
    DuneStockFacts();
    assert Key("Dune", Name(Used)) == "Dune;Used";
  }

  /**
   * The worked example of the protocol, first request: with Dune stocked Good
   * at 10 and New at 15, a request for Dune in Used state is offered Good at 10.
   */
  lemma DuneUsedOffer()
    ensures OfferWellFormed(DuneStock(), "Dune;Used")
    ensures OfferReply(DuneStock(), "Dune;Used") == Reply(Propose, "10;Good")
  {
    DuneStockFacts();
    DuneClimb();
    KeySplits("Dune", "Used");
    assert Key("Dune", "Used") == "Dune;Used";
  }

  /**
   * Second request of the example: Damaged climbs past the unstocked Used and
   * is offered Good at 10 as well.
   */
  lemma DuneDamagedOffer()
    ensures OfferWellFormed(DuneStock(), "Dune;Damaged")
    ensures OfferReply(DuneStock(), "Dune;Damaged") == Reply(Propose, "10;Good")
  {
    DuneStockFacts();
    DuneClimb();
    KeySplits("Dune", "Damaged");
    assert Key("Dune", "Damaged") == "Dune;Damaged";
  }

  // ---------------------------------------------------------------------
  // Purchase orders (ACCEPT_PROPOSAL)
  // ---------------------------------------------------------------------

  /** Line 316 reads piece 0 of the content split on `;`, which must exist. */
  predicate PurchaseWellFormed(key: string)
  {
    |Split(key, ';')| >= 1
  }

  /** INFORM when the key was stocked (and is now sold), FAILURE "not-available" otherwise. */
  function PurchaseReply(cat: Catalogue, key: string): (r: Reply)
    ensures r.performative == Inform <==> key in cat
    ensures r.performative != Inform ==> r == Reply(Failure, NotAvailable)
  {
    if key in cat then Reply(Inform, "") else Reply(Failure, NotAvailable)
  }

  // ---------------------------------------------------------------------
  // Price queries between sellers (QUERY_IF) and their answers (INFORM)
  // ---------------------------------------------------------------------

  /**
   * The content of a price INFORM: the key, a colon, the price. Whatever the
   * key holds, the text after its last colon is the non-empty price.
   */
  function PriceContent(key: string, price: Int32): (s: string)
    ensures |s| > |key| + 1 && s[..|key|] == key && s[|key|] == ':'
    ensures ':' !in s[|key| + 1..]
  {
    assert (key + ":" + IntToString(price))[|key| + 1..] == IntToString(price);
    key + ":" + IntToString(price)
  }

  function PriceReply(key: string, price: Int32): Reply
  {
    Reply(Inform, PriceContent(key, price))
  }

  /** The local keys that a QUERY_IF content names among its comma-separated pieces. */
  function Matching(cat: Catalogue, content: string): (r: set<string>)
    ensures r <= cat.Keys
  {
    set k | k in cat && k in Split(content, ',')
  }

  lemma ColonFreeTail(a: string, t: string, i: int)
    requires ':' !in t && |a| < i < |a| + 1 + |t|
    ensures (a + ":" + t)[i] != ':'
  {
  }

  /** Distinct keys, or distinct prices, give distinct price INFORMs. */
  lemma PriceContentInjective(k1: string, p1: Int32, k2: string, p2: Int32)
    requires PriceContent(k1, p1) == PriceContent(k2, p2)
    ensures k1 == k2 && p1 == p2
  {
    var s := PriceContent(k1, p1);
    var t1, t2 := IntToString(p1), IntToString(p2);
    if |k1| < |k2| {
      ColonFreeTail(k1, t1, |k2|);
      assert false;
    } else if |k2| < |k1| {
      ColonFreeTail(k2, t2, |k1|);
      assert false;
    } else {
      assert k1 == s[..|k1|] == k2;
      assert t1 == s[|k1| + 1..] == t2;
      ParseFormat(p1);
      ParseFormat(p2);
    }
  }

  /**
   * The INFORM content the adjuster can process without an exception: a
   * second piece after splitting on `:`, an `int` there, and a first piece
   * that is a local key (line 216 unboxes the Hashtable lookup).
   */
  predicate AdjustWellFormed(cat: Catalogue, content: string)
  {
    var parts := Split(content, ':');
    |parts| >= 2 && ParseInt(parts[1]).Some? && parts[0] in cat
  }

  /**
   * The catalogue after a peer's price INFORM: the named key's price becomes
   * the smaller of its own and the peer's; no key appears or disappears, no
   * other price moves and no price goes up.
   */
  function Adjusted(cat: Catalogue, content: string): (r: Catalogue)
    requires AdjustWellFormed(cat, content)
    ensures r.Keys == cat.Keys
    ensures var key := Split(content, ':')[0];
      r[key] == Min(cat[key], ParseInt(Split(content, ':')[1]).value) &&
      forall k :: k in cat && k != key ==> r[k] == cat[k]
    ensures forall k :: k in cat ==> r[k] <= cat[k]
  {
    var parts := Split(content, ':');
    var other := ParseInt(parts[1]).value;
    if other < cat[parts[0]] then cat[parts[0] := other] else cat
  }

  /** Applying the same price INFORM twice has the effect of applying it once. */
  lemma AdjustIdempotent(cat: Catalogue, content: string)
    requires AdjustWellFormed(cat, content)
    ensures AdjustWellFormed(Adjusted(cat, content), content)
    ensures Adjusted(Adjusted(cat, content), content) == Adjusted(cat, content)
  {
  }

  /**
   * What one seller's price INFORM does at another: when the key holds no
   * colon and is stocked there, the receiver reads back the same key and
   * price and keeps the smaller price.
   */
  lemma PriceInformRoundTrip(cat: Catalogue, key: string, price: Int32)
    requires ':' !in key && key in cat
    ensures AdjustWellFormed(cat, PriceContent(key, price))
    ensures Adjusted(cat, PriceContent(key, price)) == cat[key := Min(cat[key], price)]
  {
    SplitPair(key, IntToString(price), ':');
    assert PriceContent(key, price) == key + [':'] + IntToString(price);
    ParseFormat(price);
  }

  /**
   * The adjuster's precondition is not guaranteed by the protocol: once the
   * seller has sold a key it had broadcast, a peer's INFORM about that key
   * names a key the adjuster no longer finds.
   */
  lemma StaleInformAfterSale(cat: Catalogue, key: string, price: Int32)
    requires ':' !in key && key in cat
    ensures !AdjustWellFormed(cat - {key}, PriceContent(key, price))
  {
    SplitPair(key, IntToString(price), ':');
    assert PriceContent(key, price) == key + [':'] + IntToString(price);
  }

  /** The smallest of `p` and `prices`. */
  function MinOf(p: Int32, prices: seq<Int32>): Int32
    decreases |prices|
  {
    if prices == [] then p else MinOf(Min(p, prices[0]), prices[1..])
  }

  /** The catalogue after the price INFORMs for one key, in order. */
  function ApplyInforms(cat: Catalogue, key: string, prices: seq<Int32>): (r: Catalogue)
    requires ':' !in key && key in cat
    ensures r.Keys == cat.Keys
    decreases |prices|
  {
    if prices == [] then cat
    else
      PriceInformRoundTrip(cat, key, prices[0]);
      ApplyInforms(Adjusted(cat, PriceContent(key, prices[0])), key, prices[1..])
  }

  /**
   * Repeated price INFORMs for a key leave it at the minimum of its own price
   * and every price observed, and leave every other entry alone.
   */
  lemma {:induction false} InformsConverge(cat: Catalogue, key: string, prices: seq<Int32>)
    requires ':' !in key && key in cat
    ensures ApplyInforms(cat, key, prices) == cat[key := MinOf(cat[key], prices)]
    decreases |prices|
  {
    if prices != [] {
      PriceInformRoundTrip(cat, key, prices[0]);
      var next := cat[key := Min(cat[key], prices[0])];
      InformsConverge(next, key, prices[1..]);
      assert next[key := MinOf(next[key], prices[1..])] == cat[key := MinOf(cat[key], prices)];
    }
  }

  // ---------------------------------------------------------------------
  // The broadcast tick
  // ---------------------------------------------------------------------

  /** `order` lists each key of `keys` once: an iteration order of the key set. */
  ghost predicate Enumerates(order: seq<string>, keys: set<string>)
  {
    && (forall i, j :: 0 <= i < j < |order| ==> order[i] != order[j])
    && (forall k :: k in keys <==> k in order)
  }

  /** `ArrayList.remove(Object)`: drops the first occurrence of `x`, if any. */
  function RemoveFirst(xs: seq<AgentId>, x: AgentId): (r: seq<AgentId>)
    ensures multiset(r) == multiset(xs) - multiset{x}
    ensures multiset(xs)[x] <= 1 ==> x !in r
  {
    if xs == [] then []
    else if xs[0] == x then
      assert xs == [x] + xs[1..];
      xs[1..]
    else
      assert xs == [xs[0]] + xs[1..];
      [xs[0]] + RemoveFirst(xs[1..], x)
  }

  /**
   * A peer that splits the broadcast content on commas gets back the
   * broadcaster's keys, so it answers for exactly the keys both sellers hold,
   * provided no key holds a comma.
   */
  lemma QueryNamesSharedKeys(mine: Catalogue, order: seq<string>, peer: Catalogue)
    requires Enumerates(order, mine.Keys) && mine != map[]
    requires forall k :: k in mine ==> k != [] && ',' !in k
    ensures Split(Join(order, ','), ',') == order
    ensures Matching(peer, Join(order, ',')) == peer.Keys * mine.Keys
  {
    assert order != [] by {
      var k :| k in mine;
      assert k in order;
    }
    assert order[|order| - 1] in mine;
    SplitJoin(order, ',');
  }

  // ---------------------------------------------------------------------
  // Runs of the seller
  // ---------------------------------------------------------------------

  /** The inputs that reach the seller, one handler each. */
  datatype Event =
    | AddListing(title: string, price: Int32, state: string)  // updateCatalogue
    | CallForProposal(content: string)                        // CFP from a buyer
    | AcceptProposal(content: string)                         // ACCEPT_PROPOSAL from a buyer
    | PriceQuery(content: string)                             // QUERY_IF from a peer
    | PeerPrice(content: string)                              // INFORM from a peer

  /** The handler of `e` runs without an exception on `cat`. */
  predicate Enabled(cat: Catalogue, e: Event)
  {
    match e
    case AddListing(_, _, _) => true
    case CallForProposal(content) => OfferWellFormed(cat, content)
    case AcceptProposal(content) => PurchaseWellFormed(content)
    case PriceQuery(_) => true
    case PeerPrice(content) => AdjustWellFormed(cat, content)
  }

  /**
   * The catalogue after handling `e`. Only a listing adds a key, only a sale
   * of that key removes one, and apart from a listing no price goes up.
   */
  function Next(cat: Catalogue, e: Event): (r: Catalogue)
    requires Enabled(cat, e)
    ensures forall k :: k in cat && k !in r ==> e == AcceptProposal(k)
    ensures forall k :: k in r && k !in cat ==> e.AddListing? && k == Key(e.title, e.state)
    ensures !e.AddListing? ==> forall k :: k in r ==> r[k] <= cat[k]
  {
    match e
    case AddListing(title, price, state) => cat[Key(title, state) := price]
    case CallForProposal(_) => cat
    case AcceptProposal(key) => cat - {key}
    case PriceQuery(_) => cat
    case PeerPrice(content) => Adjusted(cat, content)
  }

  /** Every event of `trace` is handled without an exception, in order. */
  predicate Runs(cat: Catalogue, trace: seq<Event>)
    decreases |trace|
  {
    trace == [] || (Enabled(cat, trace[0]) && Runs(Next(cat, trace[0]), trace[1..]))
  }

  function Final(cat: Catalogue, trace: seq<Event>): Catalogue
    requires Runs(cat, trace)
    decreases |trace|
  {
    if trace == [] then cat else Final(Next(cat, trace[0]), trace[1..])
  }

  /** How many ACCEPT_PROPOSALs for `key` in the run are answered INFORM. */
  function Sales(cat: Catalogue, trace: seq<Event>, key: string): nat
    requires Runs(cat, trace)
    decreases |trace|
  {
    if trace == [] then 0
    else
      var sold := if trace[0] == AcceptProposal(key) && PurchaseReply(cat, key).performative == Inform then 1 else 0;
      sold + Sales(Next(cat, trace[0]), trace[1..], key)
  }

  /** How many listings in the trace are for `key`. */
  function Listings(trace: seq<Event>, key: string): nat
  {
    if trace == [] then 0
    else
      (if trace[0].AddListing? && Key(trace[0].title, trace[0].state) == key then 1 else 0)
      + Listings(trace[1..], key)
  }

  /**
   * At most one sale per listing: over any run, the sales of a key plus its
   * presence at the end never exceed its presence at the start plus the
   * number of times it was listed. Two buyers accepting the same offer with
   * no new listing in between get one INFORM and one FAILURE.
   */
  lemma {:induction false} AtMostOneSalePerListing(cat: Catalogue, trace: seq<Event>, key: string)
    requires Runs(cat, trace)
    ensures Sales(cat, trace, key) + (if key in Final(cat, trace) then 1 else 0)
      <= (if key in cat then 1 else 0) + Listings(trace, key)
    decreases |trace|
  {
    if trace != [] {
      AtMostOneSalePerListing(Next(cat, trace[0]), trace[1..], key);
    }
  }

  /** The race of two buyers on one stocked key, with nothing in between. */
  lemma SecondAcceptanceFails(cat: Catalogue, key: string)
    requires key in cat && PurchaseWellFormed(key)
    ensures Runs(cat, [AcceptProposal(key), AcceptProposal(key)])
    ensures Sales(cat, [AcceptProposal(key), AcceptProposal(key)], key) == 1
    ensures PurchaseReply(cat - {key}, key) == Reply(Failure, NotAvailable)
    ensures Final(cat, [AcceptProposal(key), AcceptProposal(key)]) == cat - {key}
  {
    var t := [AcceptProposal(key), AcceptProposal(key)];
    var after := Next(cat, t[0]);
    assert after == cat - {key};
    assert t[1..] == [AcceptProposal(key)];
    assert Runs(Next(after, t[1]), t[1..][1..]);
    assert Sales(after, t[1..], key) == 0;
    assert Final(after, t[1..]) == Final(after, []) == after;
  }
}
