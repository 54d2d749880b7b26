# Book-seller catalogue and negotiation handlers

A Dafny model of the seller agent of a JADE book-trading system
(`BookSellerAgent.java`). The seller owns a catalogue, a map from the key
`title;state` to an `int` price. It serves four kinds of message:

- a buyer's CFP (call for proposal), answered with PROPOSE or REFUSE, falling
  back along the condition ladder Damaged → Used → Good → New;
- a buyer's ACCEPT_PROPOSAL, which removes the key in one check-and-remove
  step and answers INFORM or FAILURE;
- a peer seller's QUERY_IF listing keys, answered with one INFORM `key:price`
  per key the seller also holds;
- a peer's INFORM `key:price`, which lowers the local price when the peer's is
  lower.

A timer tick broadcasts the comma-joined keys to the other sellers.

Modules:

- `Wrappers` (`wrappers.dfy`): `Option`, standing for a Java `null`.
- `JavaText` (`java_text.dfy`): the parts of `java.lang` the payloads go
  through. `String.split` is modelled exactly for a one-character separator
  that is not a regular-expression metacharacter (`;`, `,` and `:` here):
  trailing empty pieces are dropped, and a string without the separator splits
  to itself. `String.join`, `Integer.toString` and `Integer.valueOf` are
  modelled too, over 32-bit `int`.
- `Ladder` (`ladder.dfy`): the `state_num` and `better_state` tables.
- `SellerProtocol` (`seller_protocol.dfy`): what each handler computes, as a
  function of the catalogue and one message content. It also holds the lemmas
  about those functions and about runs of several messages.
- `SellerAgent` (`seller_agent.dfy`): the class `BookSellerAgent`. Its
  `catalogue` field is updated in place, with one method per handler body, and
  each method is proved against its `SellerProtocol` function. The offer
  handler keeps the source's `while` loop over `better_state`. The price
  responder keeps its loop over the key set.

Where the source throws an exception, the model has a `requires`:

- a CFP whose `;`-split has no second piece;
- a CFP that walks the ladder from a state `better_state` does not know;
- a non-empty ACCEPT_PROPOSAL made only of `;` characters, because line 316
  reads piece 0 of its split, which is then empty (the empty content splits to
  one empty piece and is accepted);
- a peer INFORM whose `:`-split has no second piece (line 215), a price that is
  not an `int`, or a key the seller does not hold, because line 216 unboxes a
  null.

Lemma `StaleInformAfterSale` shows that the protocol does not rule out the
last case: a key sold between a broadcast and the peer's answer reaches the
adjuster as an absent key.

Three behaviours of the code shape the model:

- The peer query carries full `title;state` keys (line 125), not bare titles.
  Prices are therefore compared per key.
- The adjuster does not skip a key it lacks: it throws.
- On an exact match the PROPOSE reports piece 1 of the request's `;`-split
  (line 258), not the stored key's state. This is the same thing whenever the
  title holds no `;`.

## Model

| member | source | states |
|---|---|---|
| JavaText.Split | MonPremierAgent/src/firstAgent/BookSellerAgent.java:245-246 | `split` gives pieces free of the separator, and a string without the separator splits to itself alone |
| JavaText.Join | MonPremierAgent/src/firstAgent/BookSellerAgent.java:125 | when no part holds the separator, the join of n ≥ 1 parts holds exactly n − 1 separators (`SplitJoin` gives the parts back) |
| JavaText.SplitJoin | MonPremierAgent/src/firstAgent/BookSellerAgent.java:125 | splitting a comma join gives back the list, when no element holds the separator and the last element is not empty (the broadcast payload read at line 183) |
| JavaText.SplitPair | MonPremierAgent/src/firstAgent/BookSellerAgent.java:214-215 | `a + sep + b` splits into exactly `a` and `b` when neither holds the separator and `b` is not empty |
| JavaText.IntToString | MonPremierAgent/src/firstAgent/BookSellerAgent.java:188 | a formatted price is not empty and holds no `;`, `,` or `:`, so it never breaks the payload grammar |
| JavaText.ParseInt | MonPremierAgent/src/firstAgent/BookSellerAgent.java:215 | `Integer.valueOf` only ever yields a value inside the 32-bit range |
| JavaText.ParseFormat | MonPremierAgent/src/firstAgent/BookSellerAgent.java:188 | parsing a formatted `int` gives the same `int` (line 215 reads what line 188 wrote) |
| Ladder.Name | MonPremierAgent/src/firstAgent/BookSellerAgent.java:61-64 | state names are non-empty, hold no separator and differ from the sentinel "the best" |
| Ladder.Parse | MonPremierAgent/src/firstAgent/BookSellerAgent.java:66-70 | a string is known to the tables exactly when it is the name of one of the four conditions |
| Ladder.StateNum | MonPremierAgent/src/firstAgent/BookSellerAgent.java:60-64 | `state_num` ranges over 1..4, and 4 belongs to New alone |
| Ladder.BetterState | MonPremierAgent/src/firstAgent/BookSellerAgent.java:66-70 | only New has no better state; every other state goes to the state whose `state_num` is exactly one higher |
| Ladder.BetterStateEntry | MonPremierAgent/src/firstAgent/BookSellerAgent.java:266-267 | `better_state.get` is null exactly for non-ladder strings and "the best" exactly for New; otherwise it names the next rung |
| Ladder.StepsToBest | MonPremierAgent/src/firstAgent/BookSellerAgent.java:265-274 | following `better_state` from a state reaches the sentinel after 4 minus its `state_num` steps, at most three |
| SellerProtocol.Key | MonPremierAgent/src/firstAgent/BookSellerAgent.java:163 | a key is one longer than title and state together, and for a `;`-free title the title is exactly what precedes the key's first `;` (both pieces come back by `KeySplits`) |
| SellerProtocol.ProposeContent | MonPremierAgent/src/firstAgent/BookSellerAgent.java:258 | for a non-empty `;`-free state, a buyer splitting the PROPOSE content on `;` reads back exactly the price (through `Integer.valueOf`) and the state; lines 258 and 280 build it, `OfferReply` and `DuneStockFacts` use it |
| SellerProtocol.KeySplits | MonPremierAgent/src/firstAgent/BookSellerAgent.java:163 | a key `title;state` splits back to title and state when the title holds no `;` and the state is a non-empty `;`-free string (as read at lines 245-246) |
| SellerProtocol.NearestStocked | MonPremierAgent/src/firstAgent/BookSellerAgent.java:262-274 | the climb returns a strictly better stocked state with no stocked state strictly between, and returns none exactly when no strictly better state is stocked |
| SellerProtocol.OfferReply | MonPremierAgent/src/firstAgent/BookSellerAgent.java:251-288 | an exact key match proposes `price;state` at that key's price; REFUSE comes exactly when the content is not stocked and no strictly better state of the title is, and then carries "not-available"; any other reply is the PROPOSE of the nearest stocked better state (`NearestStocked`) at that key's price, as lines 275-280 build it |
| SellerProtocol.OfferByLadder | MonPremierAgent/src/firstAgent/BookSellerAgent.java:251-288 | for a request `title;state` with a `;`-free title, REFUSE comes exactly when no state at least as good is stocked; every other reply is a PROPOSE of the nearest such state at its own price |
| SellerProtocol.DuneUsedOffer | MonPremierAgent/src/firstAgent/BookSellerAgent.java:262-281 | with Dune Good at 10 and New at 15, a request for Used is proposed `10;Good` |
| SellerProtocol.DuneDamagedOffer | MonPremierAgent/src/firstAgent/BookSellerAgent.java:262-281 | in the same stock a request for Damaged climbs past Used and is proposed `10;Good` |
| SellerProtocol.Matching | MonPremierAgent/src/firstAgent/BookSellerAgent.java:183-185 | the keys a price query selects are local keys |
| SellerProtocol.PriceContent | MonPremierAgent/src/firstAgent/BookSellerAgent.java:188 | the content starts with the key and a `:`, and the rest (the formatted price) is non-empty and colon-free, so the adjuster's split separates key from price whatever the key; `PriceContentInjective` and `PriceInformRoundTrip` build on it |
| SellerProtocol.PriceContentInjective | MonPremierAgent/src/firstAgent/BookSellerAgent.java:188 | two price INFORM contents are equal only for the same key and the same price |
| SellerProtocol.Adjusted | MonPremierAgent/src/firstAgent/BookSellerAgent.java:213-221 | after a peer INFORM the key's price is the minimum of its own and the peer's; the key set and all other prices are unchanged; no price rises |
| SellerProtocol.AdjustIdempotent | MonPremierAgent/src/firstAgent/BookSellerAgent.java:216-219 | applying the same INFORM twice gives the same catalogue as applying it once |
| SellerProtocol.PriceInformRoundTrip | MonPremierAgent/src/firstAgent/BookSellerAgent.java:188 | a `key:price` INFORM for a colon-free stocked key is read back by the adjuster (lines 214-216) as that key and price, and lowers the price to their minimum |
| SellerProtocol.StaleInformAfterSale | MonPremierAgent/src/firstAgent/BookSellerAgent.java:216 | after the key is sold (line 319) a peer INFORM for it no longer meets the adjuster's precondition |
| SellerProtocol.ApplyInforms | MonPremierAgent/src/firstAgent/BookSellerAgent.java:213-221 | a sequence of price INFORMs for one key keeps the key set |
| SellerProtocol.InformsConverge | MonPremierAgent/src/firstAgent/BookSellerAgent.java:216-219 | repeated INFORMs for one key leave it at the minimum of its price and all prices seen, and leave other entries alone |
| SellerProtocol.RemoveFirst | MonPremierAgent/src/firstAgent/BookSellerAgent.java:116 | removing self keeps every other agent and drops one occurrence of self; self is gone when the directory listed it at most once |
| SellerProtocol.QueryNamesSharedKeys | MonPremierAgent/src/firstAgent/BookSellerAgent.java:125 | with comma-free non-empty keys, the broadcast content splits back to the key list (line 183), so a peer answers for exactly the keys both sellers hold |
| SellerProtocol.PurchaseReply | MonPremierAgent/src/firstAgent/BookSellerAgent.java:319-328 | INFORM exactly when the key is in the catalogue; any other reply is FAILURE "not-available"; `PurchaseOrder` is proved to answer it, and `Sales` counts its INFORMs |
| SellerProtocol.Next | MonPremierAgent/src/firstAgent/BookSellerAgent.java:319 | across all handlers, only a listing adds a key; only the sale of a key removes it; apart from a listing no price rises |
| SellerProtocol.AtMostOneSalePerListing | MonPremierAgent/src/firstAgent/BookSellerAgent.java:319-328 | over any run, sales of a key plus its presence at the end never exceed its presence at the start plus its listings: at most one INFORM per listing |
| SellerProtocol.SecondAcceptanceFails | MonPremierAgent/src/firstAgent/BookSellerAgent.java:319-328 | two ACCEPT_PROPOSALs for a stocked key give one sale; the second gets FAILURE "not-available"; the key is gone |
| SellerAgent.BookSellerAgent.constructor | MonPremierAgent/src/firstAgent/BookSellerAgent.java:57 | the catalogue starts empty |
| SellerAgent.BookSellerAgent.UpdateCatalogue | MonPremierAgent/src/firstAgent/BookSellerAgent.java:159-167 | `title;state` maps to the price afterwards, replacing any earlier one; every other entry is unchanged |
| SellerAgent.BookSellerAgent.OfferRequest | MonPremierAgent/src/firstAgent/BookSellerAgent.java:243-289 | the loop's reply is `OfferReply` of the catalogue and content; the catalogue is not modified; the state is updated at most `StepsToBest` of the requested state times, never more than three |
| SellerAgent.BookSellerAgent.PurchaseOrder | MonPremierAgent/src/firstAgent/BookSellerAgent.java:315-329 | a stocked key is removed and answered INFORM; an absent key leaves the catalogue unchanged and gets FAILURE "not-available" |
| SellerAgent.BookSellerAgent.SendPrices | MonPremierAgent/src/firstAgent/BookSellerAgent.java:182-191 | exactly one INFORM `key:price` per local key named in the comma-split query, none for other keys, no repeats; the catalogue is not modified |
| SellerAgent.BookSellerAgent.AdjustPrice | MonPremierAgent/src/firstAgent/BookSellerAgent.java:213-221 | the catalogue becomes `Adjusted` of the old one: same keys, no price higher |
| SellerAgent.BookSellerAgent.OnTick | MonPremierAgent/src/firstAgent/BookSellerAgent.java:101-130 | nothing is sent exactly when the catalogue is empty; otherwise the content is the comma join of the keys and the receivers are the directory's agents minus self |

## Left out

- The JADE runtime is not modelled. That covers behaviour scheduling, `receive`/`block`, `createReply`/`send` and message envelopes. Each method is one handler body run on one received message; its result is the reply.
- The purchase INFORM carries the content `createReply` leaves unset, modelled as the empty string.
- `updateCatalogue` defers its insert to a one-shot behaviour; the model applies it at once.
- Directory registration, search and deregistration, and their `FIPAException` paths, are not modelled: they are calls into an unseen library. The search result is the parameter `directory` of `OnTick`. The case where a failed search leaves the previous peer list in place is not modelled.
- The 10-second tick period, the GUI (`BookSellerGui`, and `BookBuyerGui.java` entirely) and the `System.out.println` logging are not modelled.
- Hashtable key-set iteration order is unspecified. In `OnTick` it is the parameter `keyOrder`, required to list each key once. `SendPrices` visits the keys in an arbitrary order.
- JavaText.ParseInt: accepts only ASCII digits, whereas `Integer.valueOf` also accepts other Unicode decimal digits.
- A message whose content is null is not modelled.
- There is no concurrency to model: the agent runs one behaviour at a time. Two buyers racing for a key are two successive purchase handler runs (`SecondAcceptanceFails`, `AtMostOneSalePerListing`).
