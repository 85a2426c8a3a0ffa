/**
 * `PyDigestResource.fetch_entries` (apps/utils.py:243-287): for every realm
 * and each of its section aliases, the feed at `BaseUrl + alias + "/"` is
 * parsed; its first few entries are taken last first, tagged with the realm's
 * name, and appended unless an entry with the same link was taken before.
 * The feed parser is a parameter: `None` stands for a parse that raised.
 */
module Digest {
  import opened Wrappers

  /** A feed entry: the attributes the loop reads. */
  datatype Entry = Entry(link: string, title: string, summary: string)

  /** A result record: `realm_name`, `url`, `title`, `description`. */
  datatype Item = Item(realmName: string, url: string, title: string, description: string)

  /** One realm of the mapping: its name and its section aliases, in order. */
  datatype RealmFeeds = RealmFeeds(realmName: string, aliases: seq<string>)

  const BaseUrl: string := "http://pythondigest.ru/rss/"

  /** The feed address of a section: `'%s%s/' % (base_url, alias)`. */
  function FeedUrl(alias: string): string
  {
    BaseUrl + alias + "/"
  }

  /** Five entries per section, three when the realm has more than one section. */
  function EntriesMax(aliases: seq<string>): (r: nat)
    ensures r == 3 || r == 5
    ensures r == 3 <==> |aliases| > 1
  {
    if |aliases| > 1 then 3 else 5
  }

  function Min(a: nat, b: nat): nat
  {
    if a <= b then a else b
  }

  /** The record built from an entry for a realm. */
  function Tag(realmName: string, e: Entry): Item
  {
    Item(realmName, e.link, e.title, e.summary)
  }

  /** The entries tagged with the realm's name, last entry first. */
  function TaggedReversed(realmName: string, es: seq<Entry>): (r: seq<Item>)
    ensures |r| == |es|
    ensures forall i :: 0 <= i < |r| ==> r[i] == Tag(realmName, es[|es| - 1 - i])
  {
    if es == [] then [] else TaggedReversed(realmName, es[1..]) + [Tag(realmName, es[0])]
  }

  /**
   * What one section offers: nothing when its feed could not be parsed,
   * otherwise `reversed(parsed.entries[:entries_max])`, tagged.
   */
  function SectionItems(realmName: string, parsed: Option<seq<Entry>>, entriesMax: nat): (r: seq<Item>)
    ensures parsed.None? ==> r == []
    ensures parsed.Some? ==>
              && |r| == Min(entriesMax, |parsed.value|)
              && forall i :: 0 <= i < |r| ==> r[i] == Tag(realmName, parsed.value[|r| - 1 - i])
  {
    match parsed
    case None => []
    case Some(es) => TaggedReversed(realmName, es[..Min(entriesMax, |es|)])
  }

  /** The items the sections `aliases` of a realm offer, section after section. */
  function RealmCandidates(realmName: string, entriesMax: nat, aliases: seq<string>,
                           parse: string -> Option<seq<Entry>>): seq<Item>
  {
    if aliases == [] then []
    else RealmCandidates(realmName, entriesMax, aliases[..|aliases| - 1], parse)
         + SectionItems(realmName, parse(FeedUrl(aliases[|aliases| - 1])), entriesMax)
  }

  /** The items all realms offer, in iteration order, before de-duplication. */
  function Candidates(mapping: seq<RealmFeeds>, parse: string -> Option<seq<Entry>>): seq<Item>
  {
    if mapping == [] then []
    else
      var m := mapping[|mapping| - 1];
      Candidates(mapping[..|mapping| - 1], parse)
      + RealmCandidates(m.realmName, EntriesMax(m.aliases), m.aliases, parse)
  }

  function Urls(items: seq<Item>): (r: seq<string>)
    ensures |r| == |items| && forall i :: 0 <= i < |r| ==> r[i] == items[i].url
  {
    seq(|items|, i requires 0 <= i < |items| => items[i].url)
  }

  /** `results` and `known_links` after the items have been offered one by one. */
  function DedupState(items: seq<Item>): (r: (seq<Item>, seq<string>))
    ensures r.1 == Urls(r.0)
  {
    if items == [] then ([], [])
    else
      var prev := DedupState(items[..|items| - 1]);
      var it := items[|items| - 1];
      if it.url in prev.1 then prev else (prev.0 + [it], prev.1 + [it.url])
  }

  /** The first item of every link, in order. */
  function DedupByUrl(items: seq<Item>): seq<Item>
  {
    DedupState(items).0
  }

  /** Offering one more item: skipped when its link is known, appended otherwise. */
  lemma DedupStateSnoc(items: seq<Item>, it: Item)
    ensures DedupState(items + [it])
         == var prev := DedupState(items);
            if it.url in prev.1 then prev else (prev.0 + [it], prev.1 + [it.url])
  {
    assert (items + [it])[..|items|] == items;
  }

  ghost predicate UniqueUrls(items: seq<Item>)
  {
    forall i, j :: 0 <= i < j < |items| ==> items[i].url != items[j].url
  }

  /**
   * De-duplication keeps exactly the first item of every link: no two results
   * share a link, every result is an item no earlier item shares its link
   * with, and every item's link is among the results.
   */
  lemma DedupByUrlSpec(items: seq<Item>)
    ensures UniqueUrls(DedupByUrl(items))
    ensures forall j :: 0 <= j < |DedupByUrl(items)| ==>
              exists i :: 0 <= i < |items| && items[i] == DedupByUrl(items)[j]
                          && forall i' :: 0 <= i' < i ==> items[i'].url != items[i].url
    ensures forall i :: 0 <= i < |items| ==> items[i].url in Urls(DedupByUrl(items))
  {
    DedupUnique(items);
    DedupFirst(items);
    DedupCovers(items);
  }

  lemma {:induction false} DedupUnique(items: seq<Item>)
    ensures UniqueUrls(DedupByUrl(items))
  {
    if items != [] {
      var init := items[..|items| - 1];
      var it := items[|items| - 1];
      DedupUnique(init);
      DedupStateSnoc(init, it);
      var prev := DedupState(init);
      if it.url !in prev.1 {
        forall j | 0 <= j < |prev.0|
          ensures prev.0[j].url != it.url
        {
          assert Urls(prev.0)[j] == prev.0[j].url;
        }
      }
    }
  }

  lemma {:induction false} DedupCovers(items: seq<Item>)
    ensures forall i :: 0 <= i < |items| ==> items[i].url in Urls(DedupByUrl(items))
  {
    if items != [] {
      var init := items[..|items| - 1];
      var it := items[|items| - 1];
      DedupCovers(init);
      DedupStateSnoc(init, it);
      var prev := DedupState(init);
      var r := DedupByUrl(items);
      forall i | 0 <= i < |items|
        ensures items[i].url in Urls(r)
      {
        if i < |init| {
          assert items[i] == init[i];
          var k :| 0 <= k < |prev.0| && Urls(prev.0)[k] == init[i].url;
          assert Urls(r)[k] == Urls(prev.0)[k];
        } else if it.url !in prev.1 {
          assert Urls(r)[|r| - 1] == it.url;
        }
      }
    }
  }

  lemma {:induction false} DedupFirst(items: seq<Item>)
    ensures forall j :: 0 <= j < |DedupByUrl(items)| ==>
              exists i :: 0 <= i < |items| && items[i] == DedupByUrl(items)[j]
                          && forall i' :: 0 <= i' < i ==> items[i'].url != items[i].url
  {
    if items != [] {
      var init := items[..|items| - 1];
      var it := items[|items| - 1];
      DedupFirst(init);
      DedupCovers(init);
      assert items == init + [it];
      DedupStateSnoc(init, it);
      var prev := DedupState(init);
      var r := DedupByUrl(items);
      forall j | 0 <= j < |r|
        ensures exists i :: 0 <= i < |items| && items[i] == r[j]
                            && forall i' :: 0 <= i' < i ==> items[i'].url != items[i].url
      {
        if j < |prev.0| {
          assert r[j] == prev.0[j];
          var i :| 0 <= i < |init| && init[i] == prev.0[j]
                   && forall i' :: 0 <= i' < i ==> init[i'].url != init[i].url;
          assert items[i] == init[i];
          assert forall i' :: 0 <= i' < i ==> items[i'] == init[i'];
        } else {
          assert it.url !in prev.1 && r[j] == it;
          forall i' | 0 <= i' < |init|
            ensures items[i'].url != it.url
          {
            assert items[i'] == init[i'] && init[i'].url in Urls(prev.0);
          }
          assert items[|items| - 1] == r[j];
        }
      }
    } else {
      assert DedupByUrl(items) == [];
    }
  }

  /** The section whose feed parsed to `parsed` offers `it`: one of its first `entriesMax` entries, tagged. */
  ghost predicate SectionOffers(realmName: string, entriesMax: nat, parsed: Option<seq<Entry>>, it: Item)
  {
    parsed.Some? && exists e :: 0 <= e < Min(entriesMax, |parsed.value|) && it == Tag(realmName, parsed.value[e])
  }

  /** A section's items are exactly what it offers; a feed that failed offers nothing. */
  lemma SectionItemsMembers(realmName: string, entriesMax: nat, parsed: Option<seq<Entry>>, it: Item)
    ensures it in SectionItems(realmName, parsed, entriesMax) <==> SectionOffers(realmName, entriesMax, parsed, it)
  {
    var s := SectionItems(realmName, parsed, entriesMax);
    if it in s {
      var k :| 0 <= k < |s| && s[k] == it;
      assert it == Tag(realmName, parsed.value[|s| - 1 - k]);
    }
    if SectionOffers(realmName, entriesMax, parsed, it) {
      var e :| 0 <= e < Min(entriesMax, |parsed.value|) && it == Tag(realmName, parsed.value[e]);
      assert s[|s| - 1 - e] == it;
    }
  }

  /** Some section among `aliases` offers `it`. */
  ghost predicate AliasesOffer(realmName: string, entriesMax: nat, aliases: seq<string>,
                               parse: string -> Option<seq<Entry>>, it: Item)
  {
    exists a :: 0 <= a < |aliases| && SectionOffers(realmName, entriesMax, parse(FeedUrl(aliases[a])), it)
  }

  /** An item comes from a realm's sections exactly when one of them offers it. */
  lemma {:induction false} RealmCandidatesMembers(realmName: string, entriesMax: nat, aliases: seq<string>,
                                                  parse: string -> Option<seq<Entry>>, it: Item)
    ensures it in RealmCandidates(realmName, entriesMax, aliases, parse) <==>
              exists a :: 0 <= a < |aliases| && SectionOffers(realmName, entriesMax, parse(FeedUrl(aliases[a])), it)
  {
    RealmCandidatesOffer(realmName, entriesMax, aliases, parse, it);
  }

  lemma {:induction false} RealmCandidatesOffer(realmName: string, entriesMax: nat, aliases: seq<string>,
                                                parse: string -> Option<seq<Entry>>, it: Item)
    ensures it in RealmCandidates(realmName, entriesMax, aliases, parse) <==> AliasesOffer(realmName, entriesMax, aliases, parse, it)
  {
    if aliases != [] {
      var init := aliases[..|aliases| - 1];
      var last := aliases[|aliases| - 1];
      RealmCandidatesOffer(realmName, entriesMax, init, parse, it);
      SectionItemsMembers(realmName, entriesMax, parse(FeedUrl(last)), it);
      RealmCandidatesSplit(realmName, entriesMax, aliases, parse, it);
      AliasesOfferSnoc(realmName, entriesMax, aliases, parse, it);
    }
  }

  lemma RealmCandidatesSplit(realmName: string, entriesMax: nat, aliases: seq<string>,
                             parse: string -> Option<seq<Entry>>, it: Item)
    requires aliases != []
    ensures it in RealmCandidates(realmName, entriesMax, aliases, parse) <==>
              it in RealmCandidates(realmName, entriesMax, aliases[..|aliases| - 1], parse)
              || it in SectionItems(realmName, parse(FeedUrl(aliases[|aliases| - 1])), entriesMax)
  {
  }

  lemma AliasesOfferSnoc(realmName: string, entriesMax: nat, aliases: seq<string>,
                         parse: string -> Option<seq<Entry>>, it: Item)
    requires aliases != []
    ensures AliasesOffer(realmName, entriesMax, aliases, parse, it) <==>
              AliasesOffer(realmName, entriesMax, aliases[..|aliases| - 1], parse, it)
              || SectionOffers(realmName, entriesMax, parse(FeedUrl(aliases[|aliases| - 1])), it)
  {
    var init := aliases[..|aliases| - 1];
    if AliasesOffer(realmName, entriesMax, aliases, parse, it) {
      var a :| 0 <= a < |aliases| && SectionOffers(realmName, entriesMax, parse(FeedUrl(aliases[a])), it);
      if a < |init| {
        assert init[a] == aliases[a];
      }
    }
    if AliasesOffer(realmName, entriesMax, init, parse, it) {
      var a :| 0 <= a < |init| && SectionOffers(realmName, entriesMax, parse(FeedUrl(init[a])), it);
      assert init[a] == aliases[a];
    }
  }

  /**
   * An item is offered before de-duplication exactly when some section of
   * some realm offers it, tagged with that realm's name and limited to the
   * realm's `EntriesMax`.
   */
  lemma {:induction false} CandidatesMembers(mapping: seq<RealmFeeds>, parse: string -> Option<seq<Entry>>, it: Item)
    ensures it in Candidates(mapping, parse) <==>
              exists r, a :: 0 <= r < |mapping| && 0 <= a < |mapping[r].aliases|
                && SectionOffers(mapping[r].realmName, EntriesMax(mapping[r].aliases),
                                 parse(FeedUrl(mapping[r].aliases[a])), it)
  {
    CandidatesOffer(mapping, parse, it);
    if exists r, a :: 0 <= r < |mapping| && 0 <= a < |mapping[r].aliases|
         && SectionOffers(mapping[r].realmName, EntriesMax(mapping[r].aliases), parse(FeedUrl(mapping[r].aliases[a])), it) {
      var r, a :| 0 <= r < |mapping| && 0 <= a < |mapping[r].aliases|
         && SectionOffers(mapping[r].realmName, EntriesMax(mapping[r].aliases), parse(FeedUrl(mapping[r].aliases[a])), it);
      assert RealmOffers(mapping[r], parse, it);
    }
  }

  /** Some section of the realm `m` offers `it`. */
  ghost predicate RealmOffers(m: RealmFeeds, parse: string -> Option<seq<Entry>>, it: Item)
  {
    AliasesOffer(m.realmName, EntriesMax(m.aliases), m.aliases, parse, it)
  }

  /** Some realm of `mapping` offers `it`. */
  ghost predicate MappingOffers(mapping: seq<RealmFeeds>, parse: string -> Option<seq<Entry>>, it: Item)
  {
    exists r :: 0 <= r < |mapping| && RealmOffers(mapping[r], parse, it)
  }

  lemma {:induction false} CandidatesOffer(mapping: seq<RealmFeeds>, parse: string -> Option<seq<Entry>>, it: Item)
    ensures it in Candidates(mapping, parse) <==> MappingOffers(mapping, parse, it)
  {
    if mapping != [] {
      var init := mapping[..|mapping| - 1];
      var m := mapping[|mapping| - 1];
      CandidatesOffer(init, parse, it);
      RealmCandidatesOffer(m.realmName, EntriesMax(m.aliases), m.aliases, parse, it);
      CandidatesSplit(mapping, parse, it);
      MappingOffersSnoc(mapping, parse, it);
    }
  }

  lemma CandidatesSplit(mapping: seq<RealmFeeds>, parse: string -> Option<seq<Entry>>, it: Item)
    requires mapping != []
    ensures var m := mapping[|mapping| - 1];
      it in Candidates(mapping, parse) <==>
        it in Candidates(mapping[..|mapping| - 1], parse)
        || it in RealmCandidates(m.realmName, EntriesMax(m.aliases), m.aliases, parse)
  {
  }

  lemma MappingOffersSnoc(mapping: seq<RealmFeeds>, parse: string -> Option<seq<Entry>>, it: Item)
    requires mapping != []
    ensures MappingOffers(mapping, parse, it) <==>
              MappingOffers(mapping[..|mapping| - 1], parse, it) || RealmOffers(mapping[|mapping| - 1], parse, it)
  {
    var init := mapping[..|mapping| - 1];
    if MappingOffers(mapping, parse, it) {
      var r :| 0 <= r < |mapping| && RealmOffers(mapping[r], parse, it);
      if r < |init| {
        assert init[r] == mapping[r];
      }
    }
    if MappingOffers(init, parse, it) {
      var r :| 0 <= r < |init| && RealmOffers(init[r], parse, it);
      assert init[r] == mapping[r];
    }
  }

  /** One section's items are offered in one consecutive run. */
  lemma RealmCandidatesSnoc(before: seq<Item>, realmName: string, entriesMax: nat, aliases: seq<string>, a: nat,
                            parse: string -> Option<seq<Entry>>)
    requires a < |aliases|
    ensures before + RealmCandidates(realmName, entriesMax, aliases[..a + 1], parse)
         == before + RealmCandidates(realmName, entriesMax, aliases[..a], parse)
            + SectionItems(realmName, parse(FeedUrl(aliases[a])), entriesMax)
  {
    assert aliases[..a + 1][..a] == aliases[..a];
  }

  /** Entries `k-1..` taken last first are the entry `k-1` after those of `k..`. */
  lemma TaggedReversedStep(realmName: string, es: seq<Entry>, k: nat)
    requires 0 < k <= |es|
    ensures TaggedReversed(realmName, es[k - 1..]) == TaggedReversed(realmName, es[k..]) + [Tag(realmName, es[k - 1])]
  {
    assert es[k - 1..][1..] == es[k..];
  }

  /**
   * The innermost loop of `fetch_entries`: the entries are offered last
   * first, each appended (and its link remembered) unless its link is known.
   */
  method OfferEntries(results: seq<Item>, knownLinks: seq<string>, ghost done: seq<Item>,
                      realmName: string, entries: seq<Entry>)
    returns (results': seq<Item>, knownLinks': seq<string>)
    requires (results, knownLinks) == DedupState(done)
    ensures (results', knownLinks') == DedupState(done + TaggedReversed(realmName, entries))
  {
    results', knownLinks' := results, knownLinks;
    var k := |entries|;
    assert done + TaggedReversed(realmName, entries[k..]) == done;
    while k > 0
      invariant 0 <= k <= |entries|
      invariant (results', knownLinks') == DedupState(done + TaggedReversed(realmName, entries[k..]))
    {
      ghost var seen := done + TaggedReversed(realmName, entries[k..]);
      k := k - 1;
      var entry := entries[k];
      TaggedReversedStep(realmName, entries, k + 1);
      assert done + TaggedReversed(realmName, entries[k..]) == seen + [Tag(realmName, entry)];
      DedupStateSnoc(seen, Tag(realmName, entry));
      var link := entry.link;
      if link !in knownLinks' {
        knownLinks' := knownLinks' + [link];
        results' := results' + [Item(realmName, link, entry.title, entry.summary)];
      }
    }
    assert entries[0..] == entries;
  }

  /** One section: a feed whose parse raised is skipped, the entries of any other are offered. */
  method OfferSection(results: seq<Item>, knownLinks: seq<string>, ghost done: seq<Item>,
                      realmName: string, entriesMax: nat, parsed: Option<seq<Entry>>)
    returns (results': seq<Item>, knownLinks': seq<string>)
    requires (results, knownLinks) == DedupState(done)
    ensures (results', knownLinks') == DedupState(done + SectionItems(realmName, parsed, entriesMax))
  {
    if parsed.Some? {
      var entries := parsed.value[..Min(entriesMax, |parsed.value|)];
      results', knownLinks' := OfferEntries(results, knownLinks, done, realmName, entries);
      assert TaggedReversed(realmName, entries) == SectionItems(realmName, parsed, entriesMax);
    } else {
      results', knownLinks' := results, knownLinks;
      assert done + SectionItems(realmName, parsed, entriesMax) == done;
    }
  }

  /** The loop over one realm's sections: each feed is parsed and, unless that raised, offered. */
  method OfferRealm(results: seq<Item>, knownLinks: seq<string>, ghost before: seq<Item>,
                    realmName: string, aliases: seq<string>, parse: string -> Option<seq<Entry>>)
    returns (results': seq<Item>, knownLinks': seq<string>)
    requires (results, knownLinks) == DedupState(before)
    ensures (results', knownLinks')
         == DedupState(before + RealmCandidates(realmName, EntriesMax(aliases), aliases, parse))
  {
    results', knownLinks' := results, knownLinks;
    var entriesMax := 5;
    if |aliases| > 1 {
      entriesMax := 3;
    }
    var a := 0;
    assert before + RealmCandidates(realmName, entriesMax, aliases[..0], parse) == before;
    while a < |aliases|
      invariant 0 <= a <= |aliases| && entriesMax == EntriesMax(aliases)
      invariant (results', knownLinks') == DedupState(before + RealmCandidates(realmName, entriesMax, aliases[..a], parse))
    {
      var parsed := parse(FeedUrl(aliases[a]));
      ghost var done := before + RealmCandidates(realmName, entriesMax, aliases[..a], parse);
      results', knownLinks' := OfferSection(results', knownLinks', done, realmName, entriesMax, parsed);
      RealmCandidatesSnoc(before, realmName, entriesMax, aliases, a, parse);
      a := a + 1;
    }
    assert aliases[..a] == aliases;
  }

  /**
   * `fetch_entries`: the record list that the nested loops build, one
   * appended record (and one remembered link) at a time.
   */
  method FetchEntries(mapping: seq<RealmFeeds>, parse: string -> Option<seq<Entry>>) returns (results: seq<Item>)
    ensures results == DedupByUrl(Candidates(mapping, parse))
    ensures mapping == [] ==> results == []
  {
    if mapping == [] {
      return [];
    }
    results := [];
    var knownLinks: seq<string> := [];
    var r := 0;
    while r < |mapping|
      invariant 0 <= r <= |mapping|
      invariant (results, knownLinks) == DedupState(Candidates(mapping[..r], parse))
    {
      assert mapping[..r + 1][..r] == mapping[..r];
      results, knownLinks := OfferRealm(results, knownLinks, Candidates(mapping[..r], parse),
                                        mapping[r].realmName, mapping[r].aliases, parse);
      r := r + 1;
    }
    assert mapping[..r] == mapping;
  }
}
