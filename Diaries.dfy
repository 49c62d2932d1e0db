/** The diary page: the object store of diary records, the container of
    rendered cards, and the three operations that move records between them
    (loading every stored diary at start-up, adding one, deleting one). */
module Diaries {

  import opened Carousel
  import Sanitize

  datatype Option<T> = None | Some(value: T)

  /** A diary entry; `id` is absent until the store assigns it. */
  datatype Diary = Diary(id: Option<int>, photos: seq<Photo>, text: string, createdAt: int)

  /** Why a read-write transaction did not commit. */
  datatype AbortReason = QuotaExceeded | OtherFailure

  /** How a read-write transaction ended: the `complete` or the `abort` event. */
  datatype Outcome = Complete | Abort(reason: AbortReason)

  /** One rendered diary card: its `data-key`, its carousel, the escaped
      text of its body and the creation time it shows. */
  datatype Card = Card(key: int, slides: seq<Slide>, text: string, createdAt: int)

  // ---------------------------------------------------------------------
  // Orders

  predicate StrictlyDescending(s: seq<int>) {
    forall i, j | 0 <= i < j < |s| :: s[i] > s[j]
  }

  /** `s` read back to front. */
  function Reversed<T>(s: seq<T>): (r: seq<T>)
    ensures |r| == |s|
    ensures forall i :: 0 <= i < |s| ==> r[i] == s[|s| - 1 - i]
  {
    if s == [] then [] else Reversed(s[1..]) + [s[0]]
  }

  /** Appending an element at the end of a sequence puts it first in the
      reversal. */
  lemma {:induction false} ReversedSnoc<T>(s: seq<T>, x: T)
    ensures Reversed(s + [x]) == [x] + Reversed(s)
  {
    if s != [] {
      assert (s + [x])[1..] == s[1..] + [x];
      ReversedSnoc(s[1..], x);
    }
  }

  /** One more element of a prefix goes to the front of the prefix's reversal. */
  lemma ReversedPrefixStep<T>(s: seq<T>, n: nat)
    requires n < |s|
    ensures Reversed(s[..n + 1]) == [s[n]] + Reversed(s[..n])
  {
    assert s[..n + 1] == s[..n] + [s[n]];
    ReversedSnoc(s[..n], s[n]);
  }

  // ---------------------------------------------------------------------
  // Cards and their keys

  /** The `data-key`s of the cards, first child first. */
  function CardKeys(cards: seq<Card>): (ks: seq<int>)
    ensures |ks| == |cards|
    ensures forall i :: 0 <= i < |cards| ==> ks[i] == cards[i].key
  {
    seq(|cards|, i requires 0 <= i < |cards| => cards[i].key)
  }

  /** No two cards share a `data-key`. */
  predicate DistinctKeys(cards: seq<Card>) {
    forall i, j | 0 <= i < j < |cards| :: cards[i].key != cards[j].key
  }

  /** The cards whose key is not `k`, the rest in order. */
  function Without(cards: seq<Card>, k: int): (r: seq<Card>)
    ensures forall c :: c in r <==> c in cards && c.key != k
  {
    if cards == [] then []
    else (if cards[0].key == k then [] else [cards[0]]) + Without(cards[1..], k)
  }

  /** Without a card keyed `k` there is nothing to remove. */
  lemma {:induction false} WithoutAbsent(cards: seq<Card>, k: int)
    requires forall c | c in cards :: c.key != k
    ensures Without(cards, k) == cards
  {
    if cards != [] {
      WithoutAbsent(cards[1..], k);
      assert cards == [cards[0]] + cards[1..];
    }
  }

  lemma {:induction false} WithoutAppend(a: seq<Card>, b: seq<Card>, k: int)
    ensures Without(a + b, k) == Without(a, k) + Without(b, k)
  {
    if a == [] {
      assert a + b == b;
    } else {
      assert (a + b)[1..] == a[1..] + b;
      WithoutAppend(a[1..], b, k);
    }
  }

  /** Removing a key commutes with reversing the order. */
  lemma {:induction false} WithoutReversed(cards: seq<Card>, k: int)
    ensures Reversed(Without(cards, k)) == Without(Reversed(cards), k)
  {
    if cards != [] {
      var x, t := cards[0], cards[1..];
      var head: seq<Card> := if x.key == k then [] else [x];
      assert Reversed(cards) == Reversed(t) + [x];
      assert Without([x], k) == head by {
        assert [x][1..] == [];
      }
      WithoutAppend(Reversed(t), [x], k);
      WithoutReversed(t, k);
      var w := Without(t, k);
      assert Without(cards, k) == head + w;
      if x.key != k {
        assert ([x] + w)[1..] == w;
        assert Reversed([x] + w) == Reversed(w) + [x];
      } else {
        assert head + w == w;
      }
    }
  }

  /** What `querySelector` finds among the cards: the position of the first
      card keyed `k`, or `|cards|` when there is none. */
  function FirstIndex(cards: seq<Card>, k: int): (i: nat)
    ensures i <= |cards|
    ensures i < |cards| ==> cards[i].key == k
    ensures forall j :: 0 <= j < i ==> cards[j].key != k
  {
    if cards == [] then 0
    else if cards[0].key == k then 0
    else 1 + FirstIndex(cards[1..], k)
  }

  /** The cards after the first one keyed `k` is removed; all of them when
      no card is keyed `k`. */
  function RemoveFirst(cards: seq<Card>, k: int): (r: seq<Card>)
    ensures (forall c | c in cards :: c.key != k) ==> r == cards
    ensures (exists c | c in cards :: c.key == k) ==>
      |r| == |cards| - 1 &&
      multiset(r) == multiset(cards) - multiset{cards[FirstIndex(cards, k)]}
  {
    var i := FirstIndex(cards, k);
    if i < |cards| then
      assert cards == cards[..i] + [cards[i]] + cards[i + 1..];
      cards[..i] + cards[i + 1..]
    else
      cards
  }

  /** Among cards with distinct keys, removing the first card keyed `k`
      removes every card keyed `k` and keeps the others in order. */
  lemma {:induction false} RemoveFirstDistinct(cards: seq<Card>, k: int)
    requires DistinctKeys(cards)
    ensures RemoveFirst(cards, k) == Without(cards, k)
  {
    if cards != [] {
      if cards[0].key == k {
        RemoveFirstAtHead(cards, k);
      } else {
        DistinctTail(cards);
        RemoveFirstDistinct(cards[1..], k);
        RemoveFirstPastHead(cards, k);
      }
    }
  }

  lemma RemoveFirstAtHead(cards: seq<Card>, k: int)
    requires cards != [] && cards[0].key == k && DistinctKeys(cards)
    ensures RemoveFirst(cards, k) == Without(cards, k)
  {
    var t := cards[1..];
    assert FirstIndex(cards, k) == 0;
    forall c | c in t
      ensures c.key != k
    {
      var j :| 0 <= j < |t| && t[j] == c;
      assert t[j] == cards[j + 1];
    }
    WithoutAbsent(t, k);
    assert Without(cards, k) == Without(t, k);
  }

  lemma RemoveFirstPastHead(cards: seq<Card>, k: int)
    requires cards != [] && cards[0].key != k
    ensures RemoveFirst(cards, k) == [cards[0]] + RemoveFirst(cards[1..], k)
    ensures Without(cards, k) == [cards[0]] + Without(cards[1..], k)
  {
    var t := cards[1..];
    var i := FirstIndex(t, k);
    assert FirstIndex(cards, k) == i + 1;
    if i < |t| {
      assert cards[..i + 1] == [cards[0]] + t[..i];
      assert cards[i + 2..] == t[i + 1..];
    } else {
      assert cards == [cards[0]] + t;
    }
  }

  lemma DistinctTail(cards: seq<Card>)
    requires cards != [] && DistinctKeys(cards)
    ensures DistinctKeys(cards[1..])
  {
    var t := cards[1..];
    forall i, j | 0 <= i < j < |t|
      ensures t[i].key != t[j].key
    {
      assert t[i] == cards[i + 1] && t[j] == cards[j + 1];
    }
  }

  // ---------------------------------------------------------------------
  // Records

  predicate Keyed(records: seq<Diary>) {
    forall d | d in records :: d.id.Some?
  }

  /** Stored records in strictly ascending key order. */
  predicate AscendingKeys(records: seq<Diary>)
    requires Keyed(records)
  {
    forall i, j | 0 <= i < j < |records| :: records[i].id.value < records[j].id.value
  }

  /** A record keyed above every stored key may be appended. */
  lemma AscendingSnoc(records: seq<Diary>, d: Diary)
    requires Keyed(records) && AscendingKeys(records) && d.id.Some?
    requires forall e | e in records :: e.id.value < d.id.value
    ensures Keyed(records + [d]) && AscendingKeys(records + [d])
  {
    var s := records + [d];
    forall i, j | 0 <= i < j < |s|
      ensures s[i].id.value < s[j].id.value
    {
      assert s[i] == records[i];
      if j < |records| {
        assert s[j] == records[j];
      }
    }
  }

  /** The records whose key is not `k`. */
  function DropKey(records: seq<Diary>, k: int): (r: seq<Diary>)
    ensures forall d :: d in r <==> d in records && d.id != Some(k)
  {
    if records == [] then []
    else (if records[0].id == Some(k) then [] else [records[0]]) + DropKey(records[1..], k)
  }

  /** Deleting a record keeps the keys of the others ascending. */
  lemma {:induction false} DropKeyAscending(records: seq<Diary>, k: int)
    requires Keyed(records) && AscendingKeys(records)
    ensures AscendingKeys(DropKey(records, k))
  {
    if records != [] {
      var t := records[1..];
      AscendingTail(records);
      DropKeyAscending(t, k);
      var w := DropKey(t, k);
      if records[0].id != Some(k) {
        assert DropKey(records, k) == [records[0]] + w;
        forall e | e in w
          ensures records[0].id.value < e.id.value
        {
          var m :| 0 <= m < |t| && t[m] == e;
          assert records[m + 1] == e;
        }
        AscendingCons(records[0], w);
      } else {
        assert DropKey(records, k) == w;
      }
    }
  }

  lemma AscendingTail(records: seq<Diary>)
    requires records != [] && Keyed(records) && AscendingKeys(records)
    ensures AscendingKeys(records[1..])
  {
    var t := records[1..];
    forall i, j | 0 <= i < j < |t|
      ensures t[i].id.value < t[j].id.value
    {
      assert t[i] == records[i + 1] && t[j] == records[j + 1];
    }
  }

  lemma AscendingCons(d: Diary, records: seq<Diary>)
    requires d.id.Some? && Keyed(records) && AscendingKeys(records)
    requires forall e | e in records :: d.id.value < e.id.value
    ensures Keyed([d] + records) && AscendingKeys([d] + records)
  {
    var s := [d] + records;
    forall i, j | 0 <= i < j < |s|
      ensures s[i].id.value < s[j].id.value
    {
      assert s[j] == records[j - 1];
      if i > 0 {
        assert s[i] == records[i - 1];
      }
    }
  }

  // ---------------------------------------------------------------------
  // Rendering

  /** The card `displayDiary` builds for a stored diary. Its text goes through
      the escaping as written, `Sanitize.Sanitize`. */
  function CardFor(d: Diary): Card
    requires d.id.Some?
  {
    Card(d.id.value, Slides(d.photos), Sanitize.Sanitize(d.text), d.createdAt)
  }

  /** A card's text is the diary's text with each character replaced by its
      entry in `Sanitize.Escape`, so it holds no markup character; its carousel
      has one slide per photo with the first one active. */
  lemma CardShowsDiary(d: Diary)
    requires d.id.Some?
    ensures CardFor(d).text == Sanitize.EscapeEach(d.text, Sanitize.Escape)
    ensures var text := CardFor(d).text;
      '<' !in text && '>' !in text && '\'' !in text && '"' !in text
    ensures |CardFor(d).slides| == |d.photos|
    ensures Carousel.ActiveCount(CardFor(d).slides) == if d.photos == [] then 0 else 1
  {
    Sanitize.SanitizeIsEscapeEach(d.text);
    Sanitize.SanitizeRemovesMarkup(d.text);
    ExactlyOneActive(d.photos);
  }

  /** The cards of stored records, in store order. */
  function CardsOf(records: seq<Diary>): (cs: seq<Card>)
    requires Keyed(records)
    ensures |cs| == |records|
    ensures forall i :: 0 <= i < |records| ==> cs[i] == CardFor(records[i])
  {
    seq(|records|, i requires 0 <= i < |records| => CardFor(records[i]))
  }

  /** Deleting the record keyed `k` deletes exactly the cards keyed `k`. */
  lemma {:induction false} CardsOfDropKey(records: seq<Diary>, k: int)
    requires Keyed(records)
    ensures CardsOf(DropKey(records, k)) == Without(CardsOf(records), k)
  {
    if records != [] {
      var d, t := records[0], records[1..];
      var card, rest := CardFor(d), CardsOf(t);
      CardsOfDropKey(t, k);
      CardsOfCons(records);
      assert Without([card] + rest, k) == (if card.key == k then [] else [card]) + Without(rest, k) by {
        assert ([card] + rest)[1..] == rest;
      }
      if d.id == Some(k) {
        assert DropKey(records, k) == DropKey(t, k);
      } else {
        var dropped := [d] + DropKey(t, k);
        assert DropKey(records, k) == dropped;
        CardsOfCons(dropped);
        assert dropped[1..] == DropKey(t, k);
      }
    }
  }

  lemma CardsOfCons(records: seq<Diary>)
    requires records != [] && Keyed(records)
    ensures CardsOf(records) == [CardFor(records[0])] + CardsOf(records[1..])
  {
  }

  /** Records with ascending keys give, newest first, cards with distinct
      keys in descending order. */
  lemma CardsDescending(records: seq<Diary>)
    requires Keyed(records) && AscendingKeys(records)
    ensures StrictlyDescending(CardKeys(Reversed(CardsOf(records))))
    ensures DistinctKeys(Reversed(CardsOf(records)))
  {
    var r := Reversed(CardsOf(records));
    var n := |records|;
    forall i, j | 0 <= i < j < n
      ensures r[i].key > r[j].key
    {
      assert r[i] == CardFor(records[n - 1 - i]) && r[j] == CardFor(records[n - 1 - j]);
    }
    var rk := CardKeys(r);
    forall i, j | 0 <= i < j < n
      ensures rk[i] > rk[j]
    {
      assert rk[i] == r[i].key && rk[j] == r[j].key;
    }
  }

  // ---------------------------------------------------------------------
  // The object store

  /** The `diaries` object store: its records in ascending key order and its
      auto-increment key generator. */
  class Store {
    var records: seq<Diary>
    var nextKey: int

    ghost predicate Valid()
      reads this
    {
      Keyed(records) && AscendingKeys(records) && nextKey >= 1 &&
      forall d | d in records :: d.id.value < nextKey
    }

    /** The store as `upgradeneeded` creates it. */
    constructor ()
      ensures Valid() && records == [] && nextKey == 1
    {
      records := [];
      nextKey := 1;
    }

    /** `store.add` in a read-write transaction: on commit the record is kept
        under the next generated key; on abort nothing changes. */
    method Add(d: Diary, outcome: Outcome) returns (key: Option<int>)
      requires Valid() && d.id.None?
      modifies this
      ensures Valid()
      ensures outcome.Complete? ==>
        key == Some(old(nextKey)) &&
        records == old(records) + [d.(id := key)] &&
        nextKey == old(nextKey) + 1
      ensures outcome.Abort? ==>
        key == None && records == old(records) && nextKey == old(nextKey)
    {
      if outcome.Complete? {
        key := Some(nextKey);
        AscendingSnoc(records, d.(id := key));
        records := records + [d.(id := key)];
        nextKey := nextKey + 1;
      } else {
        key := None;
      }
    }

    /** `store.delete` in a read-write transaction: on commit the record keyed
        `k`, if any, is gone; the key generator never goes back. */
    method Delete(k: int, outcome: Outcome)
      requires Valid()
      modifies this
      ensures Valid()
      ensures records == if outcome.Complete? then DropKey(old(records), k) else old(records)
      ensures nextKey == old(nextKey)
    {
      if outcome.Complete? {
        DropKeyAscending(records, k);
        records := DropKey(records, k);
      }
    }
  }

  // ---------------------------------------------------------------------
  // The card container

  /** The `#diaries` element: its cards, first child first. */
  class Container {
    var cards: seq<Card>

    constructor ()
      ensures cards == []
    {
      cards := [];
    }

    /** `displayDiary`: the card of `d` is inserted `afterbegin`. */
    method Display(d: Diary)
      requires d.id.Some?
      modifies this
      ensures cards == [CardFor(d)] + old(cards)
    {
      cards := [CardFor(d)] + cards;
    }

    /** The `complete` handler of `deleteDiary`: the first card whose
        `data-key` is `k` is removed; when there is none, `column.remove()`
        fails and the container is left as it was. */
    method RemoveCard(k: int)
      modifies this
      ensures cards == RemoveFirst(old(cards), k)
    {
      var i := FirstIndex(cards, k);
      if i < |cards| {
        cards := cards[..i] + cards[i + 1..];
      }
    }
  }

  /** The page shows exactly the stored diaries, newest first. */
  ghost predicate Mirrors(store: Store, container: Container)
    reads store, container
  {
    store.Valid() && container.cards == Reversed(CardsOf(store.records))
  }

  /** `initialize`'s cursor walk: a forward cursor visits the records in
      ascending key order and each one is displayed as it is visited, so on
      an empty page the cards end up newest first (see `CardsDescending`). */
  method Initialize(store: Store, container: Container)
    requires store.Valid()
    modifies container
    ensures container.cards == Reversed(CardsOf(store.records)) + old(container.cards)
    ensures old(container.cards) == [] ==> Mirrors(store, container)
  {
    var records := store.records;
    ghost var cards := CardsOf(records);
    ghost var before := container.cards;
    var cursor := 0;
    while cursor < |records|
      invariant 0 <= cursor <= |records|
      invariant container.cards == Reversed(cards[..cursor]) + before
    {
      var d := records[cursor];
      assert d in records;
      ReversedPrefixStep(cards, cursor);
      container.Display(d);
      cursor := cursor + 1;
    }
    assert cards[..cursor] == cards;
  }

  /** `addDiary`: the record is built from the form and the clock, added to
      the store, and displayed once the transaction completes; an abort for
      lack of quota raises the alert. */
  method AddDiary(store: Store, container: Container, photos: seq<Photo>, text: string, now: int, outcome: Outcome)
    returns (alerted: bool)
    requires store.Valid()
    modifies store, container
    ensures store.Valid()
    ensures outcome.Complete? ==>
      var stored := Diary(Some(old(store.nextKey)), photos, text, now);
      store.records == old(store.records) + [stored] &&
      container.cards == [CardFor(stored)] + old(container.cards)
    ensures outcome.Abort? ==>
      store.records == old(store.records) && container.cards == old(container.cards)
    ensures store.nextKey == if outcome.Complete? then old(store.nextKey) + 1 else old(store.nextKey)
    ensures outcome.Complete? ==>
      forall d | d in old(store.records) :: d.id != Some(old(store.nextKey))
    ensures alerted <==> outcome == Abort(QuotaExceeded)
    ensures old(Mirrors(store, container)) ==> Mirrors(store, container)
  {
    ghost var cards := CardsOf(store.records);
    var diary := Diary(None, photos, text, now);
    var key := store.Add(diary, outcome);
    alerted := false;
    if key.Some? {
      diary := diary.(id := key);
      container.Display(diary);
      assert CardsOf(store.records) == cards + [CardFor(diary)];
      ReversedSnoc(cards, CardFor(diary));
    } else if outcome.reason == QuotaExceeded {
      alerted := true;
    }
  }

  /** `deleteDiary`: the record is deleted from the store and, once the
      transaction completes, its card is removed from the page. */
  method DeleteDiary(store: Store, container: Container, k: int, outcome: Outcome)
    requires store.Valid()
    modifies store, container
    ensures store.Valid()
    ensures outcome.Complete? ==>
      store.records == DropKey(old(store.records), k) &&
      container.cards == RemoveFirst(old(container.cards), k)
    ensures outcome.Abort? ==>
      store.records == old(store.records) && container.cards == old(container.cards)
    ensures store.nextKey == old(store.nextKey)
    ensures old(Mirrors(store, container)) ==> Mirrors(store, container)
    ensures outcome.Complete? && old(Mirrors(store, container)) ==>
      forall c | c in container.cards :: c.key != k
  {
    ghost var records := store.records;
    ghost var mirrored := Mirrors(store, container);
    store.Delete(k, outcome);
    if outcome.Complete? {
      if mirrored {
        CardsDescending(records);
        RemoveFirstDistinct(container.cards, k);
        WithoutReversed(CardsOf(records), k);
        CardsOfDropKey(records, k);
      }
      container.RemoveCard(k);
    }
  }
}
