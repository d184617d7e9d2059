/** The ledger of announced offers (`offers_published`: app id to the last
    final price announced) and `process_game`, which announces an eligible
    offer again only when its final price differs from the last price
    announced for it, and records that price. */
module Ledger {
  import opened Results
  import opened Numerals
  import opened Rows

  /** 100.00 in cents: an offer must have cost at least this before its
      discount to be announced. */
  const MinInitialCents := 10000

  /** A discount and an original price of at least 100.00. */
  predicate Eligible(o: Offer) {
    o.discount > 0 && o.initialCents >= MinInitialCents
  }

  /** The ledger has no entry for the offer's id, or one with another price. */
  predicate IsNewPrice(published: map<string, int>, o: Offer) {
    o.id !in published || published[o.id] != o.finalCents
  }

  /** What the announcement of an offer tells: name, discount, final and
      original price, and the id the store link is built from. */
  datatype Announcement = Announcement(id: string, name: string, discount: int, finalCents: int, initialCents: int)

  function AnnouncementOf(o: Offer): Announcement {
    Announcement(o.id, o.name, o.discount, o.finalCents, o.initialCents)
  }

  /** The store page of an app. */
  function AppLink(id: string): string {
    "https://store.steampowered.com/app/" + id
  }

  /** The first line of an announcement and the start of the second, up to
      the discount. */
  function MessageHead(name: string): string {
    "\U{1F3AE} " + name + " is on sale!\n" + "\U{1F4B8} "
  }

  /** The announcement's text; `money` formats an amount of cents the way
      the pt-BR currency locale does. The discount, followed by `%`, comes
      right after the head, and the text ends with the link to the app. */
  function Message(a: Announcement, money: int -> string): (msg: string)
    ensures var head, pct := MessageHead(a.name), IntString(a.discount) + "%";
      |head| + |pct| <= |msg| && msg[|head|..|head| + |pct|] == pct
    ensures var link := AppLink(a.id);
      |link| <= |msg| && msg[|msg| - |link|..] == link
  {
    var head, pct := MessageHead(a.name), IntString(a.discount) + "%";
    var middle := " discount!\n" + "\U{1F3F7}\U{FE0F} " + money(a.finalCents)
      + " instead of " + money(a.initialCents) + "\n" + "\U{1F517} Link: ";
    var link := AppLink(a.id);
    var msg := head + pct + middle + link;
    assert msg == (head + pct) + (middle + link);
    assert (head + pct)[|head|..] == pct;
    msg
  }

  /** The ledger after one offer and the announcement made for it, if any. */
  datatype Step = Step(published: map<string, int>, announced: Option<Announcement>)

  /** `process_game` on a value: an eligible offer with a new price is
      recorded under its id and announced; any other offer changes nothing. */
  function Process(published: map<string, int>, o: Offer): Step {
    if Eligible(o) && IsNewPrice(published, o) then
      Step(published[o.id := o.finalCents], Some(AnnouncementOf(o)))
    else Step(published, None)
  }

  /** The in-memory ledger of one sweep, which `process_game` updates in place. */
  class OfferLedger {
    var published: map<string, int>

    constructor (loaded: map<string, int>)
      ensures published == loaded
    {
      published := loaded;
    }

    /** `process_game`: checks the thresholds, looks the id up, and on a new
        price overwrites the entry and announces the offer. */
    method ProcessGame(o: Offer) returns (announced: Option<Announcement>)
      modifies this
      ensures announced.Some? <==> Eligible(o) && IsNewPrice(old(published), o)
      ensures announced.Some? ==> announced.value == AnnouncementOf(o)
      ensures published == if announced.Some? then old(published)[o.id := o.finalCents] else old(published)
      ensures Step(published, announced) == Process(old(published), o)
    {
      if o.discount > 0 && o.initialCents >= MinInitialCents {
        var lastOffer := if o.id in published then Some(published[o.id]) else None;
        if lastOffer != Some(o.finalCents) {
          published := published[o.id := o.finalCents];
          return Some(AnnouncementOf(o));
        }
      }
      return None;
    }
  }

  /** An offer that is not eligible leaves the ledger alone and is not
      announced, whatever its price. */
  lemma IneligibleIsSilent(published: map<string, int>, o: Offer)
    requires !Eligible(o)
    ensures Process(published, o) == Step(published, None)
  {
  }

  /** An eligible offer with a new price is announced exactly once, the
      ledger then maps its id to the final price, every other entry is
      unchanged, and the message names the discount and links the app. */
  lemma NewPriceIsAnnounced(published: map<string, int>, o: Offer, money: int -> string)
    requires Eligible(o) && IsNewPrice(published, o)
    ensures var s := Process(published, o);
      && s.announced == Some(AnnouncementOf(o))
      && s.published.Keys == published.Keys + {o.id}
      && s.published[o.id] == o.finalCents
      && (forall k :: k in published && k != o.id ==> s.published[k] == published[k])
    ensures var msg, head, pct, link := Message(AnnouncementOf(o), money), MessageHead(o.name),
                                        IntString(o.discount) + "%", AppLink(o.id);
      && msg[|head|..|head| + |pct|] == pct
      && msg[|msg| - |link|..] == link
  {
  }

  /** An eligible offer whose price the ledger already holds is not
      announced again. */
  lemma KnownPriceIsSilent(published: map<string, int>, o: Offer)
    requires o.id in published && published[o.id] == o.finalCents
    ensures Process(published, o) == Step(published, None)
  {
  }

  /** Processing the same offer twice in a row: the second time announces
      nothing and leaves the ledger as the first left it. */
  lemma RepeatIsSilent(published: map<string, int>, o: Offer)
    ensures var first := Process(published, o);
      Process(first.published, o) == Step(first.published, None)
  {
  }

  /** The ledger never loses an id, nor the price of an id other than the
      offer's. */
  lemma ProcessKeepsEntries(published: map<string, int>, o: Offer)
    ensures published.Keys <= Process(published, o).published.Keys
    ensures forall k :: k in published && k != o.id ==> Process(published, o).published[k] == published[k]
  {
  }

  /** The price threshold at its boundary: 99.99 is refused, 100.00 passes. */
  lemma ThresholdBoundary(published: map<string, int>, o: Offer)
    requires o.discount > 0
    ensures o.initialCents == 9999 ==> Process(published, o).announced == None
    ensures o.initialCents == 10000 && IsNewPrice(published, o) ==> Process(published, o).announced.Some?
  {
  }

  /** The ledger after a run of offers and the announcements made, in order. */
  datatype Batch = Batch(published: map<string, int>, announced: seq<Announcement>)

  /** `process_game` over offers in order, each seeing the ledger the
      previous one left. */
  function ProcessAll(published: map<string, int>, offers: seq<Offer>): Batch {
    if offers == [] then Batch(published, [])
    else
      var before := ProcessAll(published, offers[..|offers| - 1]);
      var step := Process(before.published, offers[|offers| - 1]);
      Batch(step.published, before.announced + OptionToSeq(step.announced))
  }

  /** Over a run the ledger only grows, and there is at most one
      announcement per offer. */
  lemma {:induction false} ProcessAllGrows(published: map<string, int>, offers: seq<Offer>)
    ensures published.Keys <= ProcessAll(published, offers).published.Keys
    ensures |ProcessAll(published, offers).announced| <= |offers|
  {
    if offers != [] {
      ProcessAllGrows(published, offers[..|offers| - 1]);
    }
  }

  /** One more offer at the end of a run. */
  lemma ProcessAllSnoc(published: map<string, int>, init: seq<Offer>, last: Offer)
    ensures var before := ProcessAll(published, init);
      var step := Process(before.published, last);
      ProcessAll(published, init + [last]) == Batch(step.published, before.announced + OptionToSeq(step.announced))
  {
    assert (init + [last])[..|init|] == init;
  }

  /** The ledger remembers only the last price announced: an offer whose
      price moves away and comes back is announced every time, its first
      price twice. */
  lemma {:induction false} PriceReturnIsAnnouncedAgain(published: map<string, int>, a: Offer, b: Offer)
    requires Eligible(a) && Eligible(b) && b.id == a.id && b.finalCents != a.finalCents
    requires IsNewPrice(published, a)
    ensures ProcessAll(published, [a, b, a]).announced == [AnnouncementOf(a), AnnouncementOf(b), AnnouncementOf(a)]
    ensures ProcessAll(published, [a, b, a]).published == published[a.id := a.finalCents]
  {
    var first := published[a.id := a.finalCents];
    var second := first[a.id := b.finalCents];
    var one, two := [AnnouncementOf(a)], [AnnouncementOf(a), AnnouncementOf(b)];
    AnnouncedStep(published, [], a, Batch(published, []));
    assert [] + [a] == [a] && [] + [AnnouncementOf(a)] == one;
    AnnouncedStep(published, [a], b, Batch(first, one));
    assert [a] + [b] == [a, b] && one + [AnnouncementOf(b)] == two;
    AnnouncedStep(published, [a, b], a, Batch(second, two));
    assert [a, b] + [a] == [a, b, a];
    assert second[a.id := a.finalCents] == first;
  }

  /** An eligible offer at a new price adds its announcement to a run and
      its price to the ledger. */
  lemma AnnouncedStep(published: map<string, int>, init: seq<Offer>, last: Offer, before: Batch)
    requires ProcessAll(published, init) == before
    requires Eligible(last) && IsNewPrice(before.published, last)
    ensures ProcessAll(published, init + [last])
      == Batch(before.published[last.id := last.finalCents], before.announced + [AnnouncementOf(last)])
  {
    ProcessAllSnoc(published, init, last);
  }

  /** Processing two runs one after the other is processing their
      concatenation. */
  lemma {:induction false} ProcessAllAppend(published: map<string, int>, xs: seq<Offer>, ys: seq<Offer>)
    ensures var first := ProcessAll(published, xs);
      var second := ProcessAll(first.published, ys);
      ProcessAll(published, xs + ys) == Batch(second.published, first.announced + second.announced)
    decreases |ys|
  {
    if ys == [] {
      assert xs + ys == xs;
    } else {
      var init, last := ys[..|ys| - 1], ys[|ys| - 1];
      var first := ProcessAll(published, xs);
      var mid := ProcessAll(first.published, init);
      var step := Process(mid.published, last);
      var tail := OptionToSeq(step.announced);
      var prefix := ProcessAll(published, xs + init);
      assert prefix == Batch(mid.published, first.announced + mid.announced) by {
        ProcessAllAppend(published, xs, init);
      }
      assert ProcessAll(published, xs + ys) == Batch(step.published, prefix.announced + tail) by {
        assert xs + ys == (xs + init) + [last];
        ProcessAllSnoc(published, xs + init, last);
      }
      assert ProcessAll(first.published, ys) == Batch(step.published, mid.announced + tail) by {
        assert ys == init + [last];
        ProcessAllSnoc(first.published, init, last);
      }
      assert (first.announced + mid.announced) + tail == first.announced + (mid.announced + tail);
    }
  }

  /** The final price of the last eligible offer with the given id. */
  function LastEligiblePrice(offers: seq<Offer>, id: string): Option<int> {
    if offers == [] then None
    else
      var o := offers[|offers| - 1];
      if Eligible(o) && o.id == id then Some(o.finalCents)
      else LastEligiblePrice(offers[..|offers| - 1], id)
  }

  /** After a run, the ledger maps each id to the final price of the last
      eligible offer with that id; ids with no eligible offer keep their
      entry, or their absence. */
  lemma {:induction false} ProcessAllLedger(published: map<string, int>, offers: seq<Offer>, id: string)
    ensures var after := ProcessAll(published, offers).published;
      match LastEligiblePrice(offers, id)
      case Some(p) => id in after && after[id] == p
      case None => (id in after <==> id in published) && (id in published ==> after[id] == published[id])
  {
    if offers != [] {
      ProcessAllLedger(published, offers[..|offers| - 1], id);
    }
  }

  /** Every announcement is that of an eligible offer of the run. */
  lemma {:induction false} AnnouncedAreEligible(published: map<string, int>, offers: seq<Offer>)
    ensures forall a :: a in ProcessAll(published, offers).announced ==>
      exists i :: 0 <= i < |offers| && Eligible(offers[i]) && a == AnnouncementOf(offers[i])
  {
    if offers != [] {
      var init := offers[..|offers| - 1];
      AnnouncedAreEligible(published, init);
      forall a | a in ProcessAll(published, offers).announced
        ensures exists i :: 0 <= i < |offers| && Eligible(offers[i]) && a == AnnouncementOf(offers[i])
      {
        if a in ProcessAll(published, init).announced {
          var i :| 0 <= i < |init| && Eligible(init[i]) && a == AnnouncementOf(init[i]);
          assert offers[i] == init[i];
        } else {
          assert Eligible(offers[|offers| - 1]) && a == AnnouncementOf(offers[|offers| - 1]);
        }
      }
    }
  }

  /** The ledger already holds the final price of every eligible offer of
      the run. */
  predicate Agrees(published: map<string, int>, offers: seq<Offer>) {
    forall i :: 0 <= i < |offers| && Eligible(offers[i]) ==>
      offers[i].id in published && published[offers[i].id] == offers[i].finalCents
  }

  /** A run over a ledger that already agrees with it announces nothing and
      changes nothing. */
  lemma {:induction false} AgreeingRunIsSilent(published: map<string, int>, offers: seq<Offer>)
    requires Agrees(published, offers)
    ensures ProcessAll(published, offers) == Batch(published, [])
  {
    if offers != [] {
      var init := offers[..|offers| - 1];
      assert Agrees(published, init) by {
        forall i | 0 <= i < |init| ensures init[i] == offers[i] { }
      }
      AgreeingRunIsSilent(published, init);
    }
  }

  /** No id appears among the eligible offers of the run with two final prices. */
  predicate ConsistentPrices(offers: seq<Offer>) {
    forall i, j ::
      (0 <= i < |offers| && 0 <= j < |offers| && Eligible(offers[i]) && Eligible(offers[j])
       && offers[i].id == offers[j].id) ==> offers[i].finalCents == offers[j].finalCents
  }

  /** The price a run records for an id is that of one of its eligible
      offers with that id, and every eligible offer's id gets one. */
  lemma {:induction false} LastEligiblePriceFrom(offers: seq<Offer>, id: string)
    ensures LastEligiblePrice(offers, id).Some? <==>
      exists i :: 0 <= i < |offers| && Eligible(offers[i]) && offers[i].id == id
    ensures LastEligiblePrice(offers, id).Some? ==>
      exists i :: (0 <= i < |offers| && Eligible(offers[i]) && offers[i].id == id
                   && offers[i].finalCents == LastEligiblePrice(offers, id).value)
  {
    if offers != [] {
      var init := offers[..|offers| - 1];
      LastEligiblePriceFrom(init, id);
      assert forall i :: 0 <= i < |init| ==> init[i] == offers[i];
    }
  }

  /** Running the same offers again right after a run announces nothing
      and leaves the ledger as it was, provided no id came with two
      different final prices. */
  lemma SecondRunIsSilent(published: map<string, int>, offers: seq<Offer>)
    requires ConsistentPrices(offers)
    ensures var after := ProcessAll(published, offers).published;
      ProcessAll(after, offers) == Batch(after, [])
  {
    var after := ProcessAll(published, offers).published;
    forall i | 0 <= i < |offers| && Eligible(offers[i])
      ensures offers[i].id in after && after[offers[i].id] == offers[i].finalCents
    {
      var id := offers[i].id;
      ProcessAllLedger(published, offers, id);
      LastEligiblePriceFrom(offers, id);
    }
    AgreeingRunIsSilent(after, offers);
  }
}
