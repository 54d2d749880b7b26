/**
 * The book-seller agent: it owns the catalogue and runs one handler body per
 * received message. Each method is the body of one behaviour, run on a
 * message the agent has already received; its result is the reply it sends.
 */
module SellerAgent {
  import opened Wrappers
  import opened JavaText
  import opened Ladder
  import opened SellerProtocol

  class BookSellerAgent {
    /** The catalogue of books for sale: `title;state` to price. */
    var catalogue: Catalogue

    /** `setup`: the agent starts with an empty catalogue. */
    constructor ()
      ensures catalogue == map[]
    {
      catalogue := map[];
    }

    /**
     * `updateCatalogue`: lists `title` in `state` at `price`, replacing any
     * earlier price of that key and leaving every other entry alone.
     */
    method UpdateCatalogue(title: string, price: Int32, state: string)
      modifies this
      ensures catalogue == old(catalogue)[Key(title, state) := price]
      ensures Key(title, state) in catalogue && catalogue[Key(title, state)] == price
      ensures forall k :: k != Key(title, state) ==>
        (k in catalogue <==> k in old(catalogue)) && (k in catalogue ==> catalogue[k] == old(catalogue)[k])
    {
      catalogue := catalogue[Key(title, state) := price];
    }

    /**
     * The offer handler on a CFP with content `content`: an exact match is
     * proposed at once; otherwise the loop climbs `better_state` until a
     * stocked key or the sentinel, updating at most three times. The
     * catalogue is only read.
     */
    method OfferRequest(content: string) returns (reply: Reply, ghost steps: nat)
      requires OfferWellFormed(catalogue, content)
      ensures reply == OfferReply(catalogue, content)
      ensures steps <= 3
      ensures content !in catalogue ==> steps <= StepsToBest(Parse(Split(content, ';')[1]).value)
    {
      var parts := Split(content, ';');
      var title := parts[0];
      var state := parts[1];
      var key := content;
      steps := 0;
      if key in catalogue {
        reply := Reply(Propose, ProposeContent(catalogue[key], state));
      } else {
        var found := true;
        ghost var start := Parse(state).value;
        while key !in catalogue
          invariant Parse(state).Some?
          invariant steps == StateNum(Parse(state).value) - StateNum(start)
          invariant steps > 0 ==> key == Key(title, state)
          invariant steps == 0 ==> key == content && state == parts[1]
          invariant NearestStocked(catalogue, title, start) ==
            if steps > 0 && key in catalogue then Some(Parse(state).value)
            else NearestStocked(catalogue, title, Parse(state).value)
          decreases 4 - StateNum(Parse(state).value)
        {
          var newState := BetterStateEntry(state).value;
          if newState == TheBest {
            found := false;
            break;
          }
          key := Key(title, newState);
          state := newState;
          steps := steps + 1;
        }
        if found {
          var price := catalogue[key];
          KeySplits(title, state);
          reply := Reply(Propose, ProposeContent(price, Split(key, ';')[1]));
        } else {
          reply := Reply(Refuse, NotAvailable);
        }
      }
    }

    /**
     * The purchase handler on an ACCEPT_PROPOSAL for `key`: check and remove
     * in one step. A stocked key is sold (removed, INFORM); an absent one
     * leaves the catalogue as it was and gets FAILURE "not-available".
     */
    method PurchaseOrder(key: string) returns (reply: Reply)
      requires PurchaseWellFormed(key)
      modifies this
      ensures reply == PurchaseReply(old(catalogue), key)
      ensures catalogue == old(catalogue) - {key}
      ensures old(key in catalogue) <==> reply.performative == Inform
      ensures key !in old(catalogue) ==> catalogue == old(catalogue) && reply == Reply(Failure, NotAvailable)
    {
      if key in catalogue {
        catalogue := catalogue - {key};
        reply := Reply(Inform, "");
      } else {
        reply := Reply(Failure, NotAvailable);
      }
    }

    /**
     * The price responder on a peer's QUERY_IF: one INFORM `key:price` for
     * each local key named in the comma-separated content, none for any
     * other key, in the order the key set is visited.
     */
    method SendPrices(content: string) returns (replies: seq<Reply>)
      ensures forall k :: k in Matching(catalogue, content) ==> PriceReply(k, catalogue[k]) in replies
      ensures forall r :: r in replies ==>
        exists k :: k in Matching(catalogue, content) && r == PriceReply(k, catalogue[k])
      ensures forall i, j :: 0 <= i < j < |replies| ==> replies[i] != replies[j]
    {
      var allTitles := Split(content, ',');
      var remaining := catalogue.Keys;
      replies := [];
      ghost var visited: set<string> := {};
      ghost var sent: seq<string> := [];
      while remaining != {}
        invariant remaining + visited == catalogue.Keys && remaining !! visited
        invariant |sent| == |replies|
        invariant forall i :: 0 <= i < |sent| ==>
          sent[i] in visited && sent[i] in allTitles && replies[i] == PriceReply(sent[i], catalogue[sent[i]])
        invariant forall k :: k in visited && k in allTitles ==> k in sent
        invariant forall i, j :: 0 <= i < j < |sent| ==> sent[i] != sent[j]
        decreases remaining
      {
        var oneTitle :| oneTitle in remaining;
        if oneTitle in allTitles {
          replies := replies + [PriceReply(oneTitle, catalogue[oneTitle])];
          sent := sent + [oneTitle];
        }
        remaining := remaining - {oneTitle};
        visited := visited + {oneTitle};
      }
      forall i, j | 0 <= i < j < |replies|
        ensures replies[i] != replies[j]
      {
        if replies[i] == replies[j] {
          PriceContentInjective(sent[i], catalogue[sent[i]], sent[j], catalogue[sent[j]]);
        }
      }
    }

    /**
     * The price adjuster on a peer's INFORM `key:price`: the local price of
     * the key becomes the smaller of the two; nothing else changes.
     */
    method AdjustPrice(content: string)
      requires AdjustWellFormed(catalogue, content)
      modifies this
      ensures catalogue == Adjusted(old(catalogue), content)
      ensures catalogue.Keys == old(catalogue).Keys
      ensures forall k :: k in catalogue ==> catalogue[k] <= old(catalogue)[k]
    {
      var parts := Split(content, ':');
      var otherTitle := parts[0];
      var otherPrice := ParseInt(parts[1]).value;
      if otherPrice < catalogue[otherTitle] {
        catalogue := catalogue[otherTitle := otherPrice];
      }
    }

    /**
     * The broadcast tick: nothing when the catalogue is empty; otherwise a
     * QUERY_IF whose content joins the keys with commas, in key-set order,
     * addressed to the sellers the directory found minus this agent.
     */
    method OnTick(self: AgentId, directory: seq<AgentId>, keyOrder: seq<string>) returns (msg: Option<Broadcast>)
      requires Enumerates(keyOrder, catalogue.Keys)
      ensures msg.None? <==> catalogue == map[]
      ensures msg.Some? ==> msg.value.content == Join(keyOrder, ',')
      ensures msg.Some? ==> multiset(msg.value.receivers) == multiset(directory) - multiset{self}
    {
      if catalogue == map[] {
        msg := None;
      } else {
        var others := RemoveFirst(directory, self);
        msg := Some(QueryIf(others, Join(keyOrder, ',')));
      }
    }
  }
}
