/**
 * The price-book fetcher: decodes the private feed, and failing that the public feed, into a
 * map from trimmed, lower-cased item name to a positive price.
 *
 * The HTTP exchanges are inputs: a `Response` says whether a request got an answer, whether
 * that answer was ok, and what its body parses to as JSON.
 */
module Market {
  import opened Wrappers
  import opened Text
  import opened Json
  import opened Folds

  type PriceMap = map<string, real>

  /** A fetch that threw, or an answer: its `ok` flag and its body parsed as JSON (`None` when the
      body is not JSON). */
  datatype Response = Unreachable | Reply(ok: bool, body: Option<Json>)

  /** Why the request failed: the public fetch threw, its status was not ok, or (in the flow as
      written) decoding its body threw. */
  datatype Failure = PublicUnreachable | PublicStatus | DecoderThrew

  datatype Outcome = Book(prices: PriceMap) | Fails(failure: Failure)

  /** The price-book invariant: every key is its own trimmed lower-case form and every price is
      positive. */
  ghost predicate WellKeyed(m: PriceMap) {
    forall k :: k in m ==> PriceKey(k) == k && m[k] > 0.0
  }

  /** What one loop step writes into the map being built: a key and its price, or nothing. */
  type Write = Option<(string, real)>

  predicate GoodWrite(w: Write) {
    w.Some? ==> PriceKey(w.value.0) == w.value.0 && w.value.1 > 0.0
  }

  lemma LastWinsWellKeyed<E>(es: seq<E>, w: E -> Write)
    requires forall i :: 0 <= i < |es| ==> GoodWrite(w(es[i]))
    ensures WellKeyed(LastWins(es, w))
  {
    forall k | k in LastWins(es, w) ensures PriceKey(k) == k && LastWins(es, w)[k] > 0.0 {
      LastWinsSpec(es, w, k);
    }
  }

  lemma FirstFillsWellKeyed<E>(base: PriceMap, es: seq<E>, w: E -> Write)
    requires WellKeyed(base)
    requires forall i :: 0 <= i < |es| ==> GoodWrite(w(es[i]))
    ensures WellKeyed(FirstFills(base, es, w))
  {
    forall k | k in FirstFills(base, es, w) ensures PriceKey(k) == k && FirstFills(base, es, w)[k] > 0.0 {
      FirstFillsSpec(base, es, w, k);
    }
  }

  // ---------------------------------------------------------------------------------------
  // mergePreferP2P
  // ---------------------------------------------------------------------------------------

  /** One entry of a `p2p` or `seq` map: its trimmed lower-case name and its value, kept when the
      value is a positive number (`typeof v === 'number' && v > 0`). */
  function EntryWrite(e: (string, Json)): (w: Write)
    ensures GoodWrite(w)
    ensures w.Some? <==> e.1.JNum? && e.1.n > 0.0
    ensures w.Some? ==> w.value == (PriceKey(e.0), e.1.n)
  {
    PriceKeyIdempotent(e.0);
    if e.1.JNum? && e.1.n > 0.0 then Some((PriceKey(e.0), e.1.n)) else None
  }

  /** The result of `mergePreferP2P(p2p, seq)`. */
  function Merged(p2p: Option<Json>, sq: Option<Json>): PriceMap {
    FirstFills(LastWins(EntriesOr(p2p), EntryWrite), EntriesOr(sq), EntryWrite)
  }

  method MergePreferP2P(p2p: Option<Json>, sq: Option<Json>) returns (out: PriceMap)
    ensures out == Merged(p2p, sq)
    ensures WellKeyed(out)
  {
    out := map[];
    var ps := EntriesOr(p2p);
    for i := 0 to |ps|
      invariant out == LastWins(ps[..i], EntryWrite)
    {
      var (n, v) := ps[i];
      var key := PriceKey(n);
      if v.JNum? && v.n > 0.0 {
        out := out[key := v.n];
      }
      LastWinsStep(ps, i, EntryWrite);
    }
    assert ps[..|ps|] == ps;
    var ss := EntriesOr(sq);
    for i := 0 to |ss|
      invariant out == FirstFills(LastWins(ps, EntryWrite), ss[..i], EntryWrite)
    {
      var (n, v) := ss[i];
      var key := PriceKey(n);
      if key !in out && v.JNum? && v.n > 0.0 {
        out := out[key := v.n];
      }
      FirstFillsStep(LastWins(ps, EntryWrite), ss, i, EntryWrite);
    }
    assert ss[..|ss|] == ss;
    MergedWellKeyed(p2p, sq);
  }

  lemma MergedWellKeyed(p2p: Option<Json>, sq: Option<Json>)
    ensures WellKeyed(Merged(p2p, sq))
  {
    LastWinsWellKeyed(EntriesOr(p2p), EntryWrite);
    FirstFillsWellKeyed(LastWins(EntriesOr(p2p), EntryWrite), EntriesOr(sq), EntryWrite);
  }

  /** The merged keys are those of the positively priced `p2p` entries together with those of
      the positively priced `seq` entries. */
  lemma MergedKeys(p2p: Option<Json>, sq: Option<Json>, k: string)
    ensures k in Merged(p2p, sq) <==>
      || (exists i :: 0 <= i < |EntriesOr(p2p)| && Writes(EntryWrite(EntriesOr(p2p)[i]), k))
      || (exists i :: 0 <= i < |EntriesOr(sq)| && Writes(EntryWrite(EntriesOr(sq)[i]), k))
  {
    LastWinsSpec(EntriesOr(p2p), EntryWrite, k);
    FirstFillsSpec(LastWins(EntriesOr(p2p), EntryWrite), EntriesOr(sq), EntryWrite, k);
  }

  /** p2p wins: a key that some positively priced `p2p` entry writes holds the price of the last
      such `p2p` entry, whatever `seq` says. */
  lemma MergedPrefersP2P(p2p: Option<Json>, sq: Option<Json>, k: string)
    requires exists i :: 0 <= i < |EntriesOr(p2p)| && Writes(EntryWrite(EntriesOr(p2p)[i]), k)
    ensures k in Merged(p2p, sq)
    ensures
      exists i :: 0 <= i < |EntriesOr(p2p)|
        && EntryWrite(EntriesOr(p2p)[i]) == Some((k, Merged(p2p, sq)[k]))
        && forall j :: i < j < |EntriesOr(p2p)| ==> !Writes(EntryWrite(EntriesOr(p2p)[j]), k)
  {
    var ps := EntriesOr(p2p);
    LastWinsSpec(ps, EntryWrite, k);
    FirstFillsSpec(LastWins(ps, EntryWrite), EntriesOr(sq), EntryWrite, k);
  }

  /** `seq` only fills gaps: a key no positively priced `p2p` entry writes holds the price of the
      first positively priced `seq` entry that writes it. */
  lemma MergedSeqFillsGaps(p2p: Option<Json>, sq: Option<Json>, k: string)
    requires forall i :: 0 <= i < |EntriesOr(p2p)| ==> !Writes(EntryWrite(EntriesOr(p2p)[i]), k)
    requires k in Merged(p2p, sq)
    ensures
      exists i :: 0 <= i < |EntriesOr(sq)|
        && EntryWrite(EntriesOr(sq)[i]) == Some((k, Merged(p2p, sq)[k]))
        && forall j :: 0 <= j < i ==> !Writes(EntryWrite(EntriesOr(sq)[j]), k)
  {
    var ps := EntriesOr(p2p);
    LastWinsSpec(ps, EntryWrite, k);
    FirstFillsSpec(LastWins(ps, EntryWrite), EntriesOr(sq), EntryWrite, k);
  }

  // ---------------------------------------------------------------------------------------
  // The private feed (fetchProtected)
  // ---------------------------------------------------------------------------------------

  /** `item.name ?? item.item ?? item.symbol`. */
  const NameFields: seq<string> := ["name", "item", "symbol"]

  /** `item.lastSaleFlower ?? item.lastSale ?? item.priceFlower ?? item.fc`. */
  const PriceFields: seq<string> := ["lastSaleFlower", "lastSale", "priceFlower", "fc"]

  /** One item of the private list: the name from the first present name field (`''` when none),
      made a string, trimmed and lower-cased; the price is `Number` of the first present price
      field (0 when none). Kept when the name is not empty and the price is positive. */
  function FeedWrite(item: Json, numText: real -> string): (w: Write)
    ensures GoodWrite(w)
    ensures w.Some? ==> |w.value.0| > 0
    ensures w.Some? <==> |FeedName(item, numText)| > 0 && FeedPrice(item).Some? && FeedPrice(item).value > 0.0
    ensures w.Some? ==> w.value == (FeedName(item, numText), FeedPrice(item).value)
  {
    var name := FeedName(item, numText);
    PriceKeyIdempotent(ToText(FirstPresent(item, NameFields).GetOr(JStr("")), numText));
    match FeedPrice(item)
    case Some(v) => if |name| > 0 && v > 0.0 then Some((name, v)) else None
    case None => None
  }

  function FeedName(item: Json, numText: real -> string): string {
    PriceKey(ToText(FirstPresent(item, NameFields).GetOr(JStr("")), numText))
  }

  function FeedPrice(item: Json): Option<real> {
    ToNumber(FirstPresent(item, PriceFields).GetOr(JNum(0.0)))
  }

  function FeedWriter(numText: real -> string): Json -> Write {
    item => FeedWrite(item, numText)
  }

  /** `Array.isArray(data) ? data : (data.items ?? [])` as `for ... of` walks it: `None` when that
      throws (reading `items` of `null`, or iterating a value that is neither an array nor a
      string). A string is walked one character at a time. */
  function FeedList(data: Json): Option<seq<Json>> {
    if data.JArr? then Some(data.items)
    else if data.JNull? then None
    else
      var items := Get(data, "items");
      if Nullish(items) then Some([])
      else match items.value
        case JArr(xs) => Some(xs)
        case JStr(s) => Some(seq(|s|, i requires 0 <= i < |s| => JStr([s[i]])))
        case _ => None
  }

  /** Getting the list throws exactly when `data` is `null`, or is not an array and holds under
      `items` a value that is neither an array nor a string; an array is walked as it is. */
  lemma FeedListSpec(data: Json)
    ensures FeedList(data).None? <==>
      || data.JNull?
      || (!data.JArr? && !Nullish(Get(data, "items"))
          && !Get(data, "items").value.JArr? && !Get(data, "items").value.JStr?)
    ensures data.JArr? ==> FeedList(data) == Some(data.items)
  {
  }

  function IsNullItem(item: Json): bool {
    item.JNull?
  }

  /** The private list loop: `None` when it throws, which it does on reaching a `null` item;
      otherwise `out[name] = price` for every item `FeedWrite` keeps. */
  function FeedPass(list: seq<Json>, numText: real -> string): Option<PriceMap> {
    Walk(list, IsNullItem, FeedWriter(numText))
  }

  method ParsePrivateList(list: seq<Json>, numText: real -> string) returns (out: Option<PriceMap>)
    ensures out == FeedPass(list, numText)
  {
    var m: PriceMap := map[];
    for i := 0 to |list|
      invariant Walk(list[..i], IsNullItem, FeedWriter(numText)) == Some(m)
    {
      var item := list[i];
      WalkStep(list, i, IsNullItem, FeedWriter(numText));
      if item.JNull? {
        WalkAborts(list, i + 1, IsNullItem, FeedWriter(numText));
        return None;
      }
      assert FeedWriter(numText)(item) == FeedWrite(item, numText);
      var name := FeedName(item, numText);
      var val := FeedPrice(item);
      if |name| > 0 && val.Some? && val.value > 0.0 {
        m := m[name := val.value];
      }
    }
    assert list[..|list|] == list;
    out := Some(m);
  }

  /** `fetchProtected()`: `None` stands for its `null` ("unavailable"), returned when no base URL
      is configured (`resp == None`), the request throws, the status is not ok, the body is not
      JSON, the list walk throws, or no item is kept. */
  function PrivateFeed(resp: Option<Response>, numText: real -> string): (r: Option<PriceMap>)
    ensures r.Some? ==> |r.value| > 0 && WellKeyed(r.value)
    ensures r.Some? ==> forall k :: k in r.value ==> |k| > 0
  {
    match resp
    case None => None
    case Some(Unreachable) => None
    case Some(Reply(ok, body)) =>
      if !ok || body.None? then None
      else match FeedList(body.value)
        case None => None
        case Some(list) =>
          match FeedPass(list, numText)
          case None => None
          case Some(m) =>
            if |m| == 0 then None
            else
              WalkIsLastWins(list, IsNullItem, FeedWriter(numText));
              LastWinsWellKeyed(list, FeedWriter(numText));
              assert forall k :: k in m ==> |k| > 0 by {
                forall k | k in m ensures |k| > 0 {
                  LastWinsSpec(list, FeedWriter(numText), k);
                }
              }
              Some(m)
  }

  /** A string under `items` is walked one character at a time: the walk never throws, and it
      keeps nothing, since a character has none of the name fields. */
  lemma FeedListOfString(data: Json, s: string, numText: real -> string)
    requires Get(data, "items") == Some(JStr(s))
    ensures FeedList(data).Some? && |FeedList(data).value| == |s|
    ensures FeedPass(FeedList(data).value, numText) == Some(map[])
  {
    var list := FeedList(data).value;
    assert forall i :: 0 <= i < |list| ==> list[i] == JStr([s[i]]);
    WalkIsLastWins(list, IsNullItem, FeedWriter(numText));
    var m := LastWins(list, FeedWriter(numText));
    forall k ensures k !in m {
      LastWinsSpec(list, FeedWriter(numText), k);
      forall i | 0 <= i < |list| ensures !Writes(FeedWriter(numText)(list[i]), k) {
        CharItemWritesNothing(s[i], numText);
      }
    }
    assert m == map[];
  }

  /** A one-character string has no name field, so its name is empty and it is not kept. */
  lemma CharItemWritesNothing(c: char, numText: real -> string)
    ensures FeedWriter(numText)(JStr([c])) == None
  {
    assert FeedWriter(numText)(JStr([c])) == FeedWrite(JStr([c]), numText);
    assert FirstPresent(JStr([c]), NameFields) == None;
    assert ToText(JStr(""), numText) == "";
    assert FeedName(JStr([c]), numText) == "";
  }

  /** An item of the private list makes it into the result exactly as the loop writes it: a key
      is present when some item writes it, and it holds the price of the last item that does. */
  lemma PrivateFeedSpec(list: seq<Json>, numText: real -> string, k: string)
    requires forall i :: 0 <= i < |list| ==> !list[i].JNull?
    ensures FeedPass(list, numText).Some?
    ensures k in FeedPass(list, numText).value <==>
      exists i :: 0 <= i < |list| && Writes(FeedWrite(list[i], numText), k)
    ensures k in FeedPass(list, numText).value ==>
      exists i :: 0 <= i < |list| && FeedWrite(list[i], numText) == Some((k, FeedPass(list, numText).value[k]))
        && forall j :: i < j < |list| ==> !Writes(FeedWrite(list[j], numText), k)
  {
    WalkIsLastWins(list, IsNullItem, FeedWriter(numText));
    LastWinsSpec(list, FeedWriter(numText), k);
  }

  // ---------------------------------------------------------------------------------------
  // The public feed (the shape dispatch of getPriceBook)
  // ---------------------------------------------------------------------------------------

  /** `raw?.prices ?? raw?.data ?? raw ?? {}`. */
  function Container(raw: Json): (c: Json)
    ensures c != JNull
  {
    FirstPresent(raw, ["prices", "data"]).GetOr(if raw.JNull? then JObj([]) else raw)
  }

  /** `container?.p2p || container?.seq`. Only an object carries the two fields, and an empty
      `p2p` map still selects the merge, since every object is truthy. */
  predicate HasP2PSeq(c: Json)
    ensures HasP2PSeq(c) ==> c.JObj?
    ensures Get(c, "p2p") == Some(JObj([])) ==> HasP2PSeq(c)
  {
    TruthyRead(Get(c, "p2p")) || TruthyRead(Get(c, "seq"))
  }

  /** `obj.p2p ?? obj.seq ?? obj.floor ?? obj.last`. */
  const ItemFields: seq<string> := ["p2p", "seq", "floor", "last"]

  /** `Number(obj.p2p ?? obj.seq ?? obj.floor ?? obj.last ?? 0)`, `None` standing for NaN. */
  function ItemPrice(obj: Json): Option<real> {
    ToNumber(FirstPresent(obj, ItemFields).GetOr(JNum(0.0)))
  }

  /** One entry of a per-item container: skipped unless its value is a truthy object; otherwise
      kept under its normalised name when its item price is positive. */
  function ItemWrite(e: (string, Json)): (w: Write)
    ensures GoodWrite(w)
    ensures w.Some? <==> Truthy(e.1) && IsObject(e.1) && ItemPrice(e.1).Some? && ItemPrice(e.1).value > 0.0
    ensures w.Some? ==> w.value == (PriceKey(e.0), ItemPrice(e.1).value) && (e.1.JObj? || e.1.JArr?)
  {
    PriceKeyIdempotent(e.0);
    if Truthy(e.1) && IsObject(e.1) then
      match ItemPrice(e.1)
      case Some(v) => if v > 0.0 then Some((PriceKey(e.0), v)) else None
      case None => None
    else None
  }

  method ParsePerItem(es: seq<(string, Json)>) returns (out: PriceMap)
    ensures out == LastWins(es, ItemWrite)
    ensures WellKeyed(out)
  {
    out := map[];
    for i := 0 to |es|
      invariant out == LastWins(es[..i], ItemWrite)
    {
      var (name, obj) := es[i];
      if Truthy(obj) && IsObject(obj) {
        var key := PriceKey(name);
        var val := ItemPrice(obj);
        if val.Some? && val.value > 0.0 {
          out := out[key := val.value];
        }
      }
      LastWinsStep(es, i, ItemWrite);
    }
    assert es[..|es|] == es;
    LastWinsWellKeyed(es, ItemWrite);
  }

  /** The public body's decoding as the source writes it: `None` when it throws. With nothing
      decoded it reaches the diagnostic `Object.keys(raw)`, which throws when `raw` is `null`. */
  function PublicPricesAsWritten(raw: Json): Option<PriceMap> {
    var c := Container(raw);
    if HasP2PSeq(c) then Some(Merged(Get(c, "p2p"), Get(c, "seq")))
    else
      var out := if IsObject(c) then LastWins(Entries(c), ItemWrite) else map[];
      if IsObject(c) && |out| > 0 then Some(out)
      else if raw.JNull? then None
      else Some(map[])
  }

  /** The public body's decoding with an unrecognised shape, `null` included, giving the empty
      map: the `p2p`/`seq` merge when the container has either, otherwise the per-item shape
      when the container is an object or an array, otherwise nothing. */
  function PublicPrices(raw: Json): (m: PriceMap)
    ensures WellKeyed(m)
  {
    var c := Container(raw);
    if HasP2PSeq(c) then
      MergedWellKeyed(Get(c, "p2p"), Get(c, "seq"));
      Merged(Get(c, "p2p"), Get(c, "seq"))
    else if IsObject(c) then
      LastWinsWellKeyed(Entries(c), ItemWrite);
      LastWins(Entries(c), ItemWrite)
    else map[]
  }

  /** The body `null` makes the source's decoder throw where an empty map is meant. */
  lemma PublicPricesAsWrittenThrowsOnNull()
    ensures PublicPricesAsWritten(JNull) == None
    ensures PublicPrices(JNull) == map[]
  {
    assert Container(JNull) == JObj([]);
    assert Entries(JObj([])) == [];
  }

  /** On every other body the source and the corrected decoder agree. */
  lemma PublicPricesAgree(raw: Json)
    requires raw != JNull
    ensures PublicPricesAsWritten(raw) == Some(PublicPrices(raw))
  {
  }

  /** With `p2p` or `seq` in the container the result is their merge. */
  lemma PublicPricesMerge(raw: Json)
    requires HasP2PSeq(Container(raw))
    ensures PublicPrices(raw) == Merged(Get(Container(raw), "p2p"), Get(Container(raw), "seq"))
  {
  }

  /** In the per-item shape, a key is present exactly when some truthy-object entry has a positive
      first present price field, and it then holds the price of the last such entry. */
  lemma PublicPricesPerItem(raw: Json, k: string)
    requires !HasP2PSeq(Container(raw)) && IsObject(Container(raw))
    ensures k in PublicPrices(raw) <==>
      exists i :: 0 <= i < |Entries(Container(raw))| && Writes(ItemWrite(Entries(Container(raw))[i]), k)
    ensures k in PublicPrices(raw) ==>
      exists i :: 0 <= i < |Entries(Container(raw))|
        && ItemWrite(Entries(Container(raw))[i]) == Some((k, PublicPrices(raw)[k]))
        && forall j :: i < j < |Entries(Container(raw))| ==> !Writes(ItemWrite(Entries(Container(raw))[j]), k)
  {
    LastWinsSpec(Entries(Container(raw)), ItemWrite, k);
  }

  // ---------------------------------------------------------------------------------------
  // getPriceBook
  // ---------------------------------------------------------------------------------------

  /** `getPriceBook()`: the private result when there is one; otherwise the public fetch, whose
      failure to answer or non-ok status fails the request, whose non-JSON body gives the empty
      map, and whose JSON body is decoded by `PublicPrices`. */
  function PriceBookOutcome(priv: Option<Response>, pub: Response, numText: real -> string): (r: Outcome)
    ensures r.Book? ==> WellKeyed(r.prices)
    ensures PrivateFeed(priv, numText).Some? ==> r == Book(PrivateFeed(priv, numText).value)
    ensures r.Fails? <==> PrivateFeed(priv, numText).None? && !(pub.Reply? && pub.ok)
    ensures r == Fails(PublicStatus) <==> PrivateFeed(priv, numText).None? && pub.Reply? && !pub.ok
  {
    match PrivateFeed(priv, numText)
    case Some(m) => Book(m)
    case None =>
      match pub
      case Unreachable => Fails(PublicUnreachable)
      case Reply(ok, body) =>
        if !ok then Fails(PublicStatus)
        else match body
          case None => Book(map[])
          case Some(raw) => Book(PublicPrices(raw))
  }

  /** `getPriceBook()` as written: like `PriceBookOutcome`, but the public body is decoded by
      `PublicPricesAsWritten`, whose throw fails the request. */
  function PriceBookOutcomeAsWritten(priv: Option<Response>, pub: Response, numText: real -> string): (r: Outcome)
    ensures r == Fails(DecoderThrew) <==> PrivateFeed(priv, numText).None? && pub == Reply(true, Some(JNull))
    ensures r != Fails(DecoderThrew) ==> r == PriceBookOutcome(priv, pub, numText)
  {
    match PrivateFeed(priv, numText)
    case Some(m) => Book(m)
    case None =>
      match pub
      case Unreachable => Fails(PublicUnreachable)
      case Reply(ok, body) =>
        if !ok then Fails(PublicStatus)
        else match body
          case None => Book(map[])
          case Some(raw) =>
            if raw.JNull? then
              PublicPricesAsWrittenThrowsOnNull();
              Fails(DecoderThrew)
            else
              PublicPricesAgree(raw);
              match PublicPricesAsWritten(raw)
              case None => Fails(DecoderThrew)
              case Some(m) => Book(m)
  }

  /** A usable private result is returned unchanged, whatever the public feed would answer. */
  lemma PrivateFeedFirst(priv: Option<Response>, pub1: Response, pub2: Response, numText: real -> string)
    requires PrivateFeed(priv, numText).Some?
    ensures PriceBookOutcome(priv, pub1, numText) == PriceBookOutcome(priv, pub2, numText)
  {
  }

  method GetPriceBook(priv: Option<Response>, pub: Response, numText: real -> string) returns (r: Outcome)
    ensures r == PriceBookOutcome(priv, pub, numText)
  {
    var prot: Option<PriceMap> := None;
    if priv.Some? && priv.value.Reply? && priv.value.ok && priv.value.body.Some? {
      var list := FeedList(priv.value.body.value);
      if list.Some? {
        var parsed := ParsePrivateList(list.value, numText);
        if parsed.Some? && |parsed.value| > 0 {
          prot := parsed;
        }
      }
    }
    if prot.Some? {
      return Book(prot.value);
    }
    match pub
    case Unreachable =>
      r := Fails(PublicUnreachable);
    case Reply(ok, body) =>
      if !ok {
        return Fails(PublicStatus);
      }
      if body.None? {
        return Book(map[]);
      }
      var raw := body.value;
      var container := Container(raw);
      if HasP2PSeq(container) {
        var out := MergePreferP2P(Get(container, "p2p"), Get(container, "seq"));
        return Book(out);
      }
      if IsObject(container) {
        var out := ParsePerItem(Entries(container));
        if |out| > 0 {
          return Book(out);
        }
      }
      r := Book(map[]);
  }

  // ---------------------------------------------------------------------------------------
  // Worked examples
  // ---------------------------------------------------------------------------------------

  /** Only `p2p` carries prices: each name is filed under its key with its own price. */
  lemma P2POnlyMergeExample(n1: string, a: real, n2: string, b: real)
    requires a > 0.0 && b > 0.0 && PriceKey(n1) != PriceKey(n2)
    ensures Merged(Some(JObj([(n1, JNum(a)), (n2, JNum(b))])), Some(JObj([])))
         == map[PriceKey(n1) := a, PriceKey(n2) := b]
  {
    var ps := [(n1, JNum(a)), (n2, JNum(b))];
    MergedWithEmptySeq(Some(JObj(ps)));
    assert EntriesOr(Some(JObj(ps))) == ps;
    LastWinsOfPair(n1, a, n2, b);
  }

  lemma MergedWithEmptySeq(p2p: Option<Json>)
    ensures Merged(p2p, Some(JObj([]))) == LastWins(EntriesOr(p2p), EntryWrite)
  {
    assert EntriesOr(Some(JObj([]))) == [];
  }

  lemma LastWinsOfPair(n1: string, a: real, n2: string, b: real)
    requires a > 0.0 && b > 0.0
    ensures LastWins([(n1, JNum(a)), (n2, JNum(b))], EntryWrite) == map[PriceKey(n1) := a][PriceKey(n2) := b]
  {
    var ps := [(n1, JNum(a)), (n2, JNum(b))];
    assert LastWins(ps[..1], EntryWrite) == map[PriceKey(n1) := a] by {
      assert ps[..0] == [];
      assert EntryWrite(ps[0]) == Some((PriceKey(n1), a));
      LastWinsStep(ps, 0, EntryWrite);
    }
    assert ps[..2] == ps;
    assert EntryWrite(ps[1]) == Some((PriceKey(n2), b));
    LastWinsStep(ps, 1, EntryWrite);
  }

  /** A name in both maps keeps its `p2p` price. */
  lemma P2PBeatsSeqMergeExample(name: string, a: real, b: real)
    requires a > 0.0 && b > 0.0
    ensures Merged(Some(JObj([(name, JNum(a))])), Some(JObj([(name, JNum(b))]))) == map[PriceKey(name) := a]
  {
    var ps := [(name, JNum(a))];
    var ss := [(name, JNum(b))];
    assert EntriesOr(Some(JObj(ps))) == ps && EntriesOr(Some(JObj(ss))) == ss;
    LastWinsOfOne(name, a);
    FirstFillsOfSame(name, a, b);
  }

  lemma LastWinsOfOne(name: string, a: real)
    requires a > 0.0
    ensures LastWins([(name, JNum(a))], EntryWrite) == map[PriceKey(name) := a]
  {
    var ps := [(name, JNum(a))];
    assert ps[..0] == [] && ps[..1] == ps;
    assert EntryWrite(ps[0]) == Some((PriceKey(name), a));
    LastWinsStep(ps, 0, EntryWrite);
  }

  lemma FirstFillsOfSame(name: string, a: real, b: real)
    requires b > 0.0
    ensures FirstFills(map[PriceKey(name) := a], [(name, JNum(b))], EntryWrite) == map[PriceKey(name) := a]
  {
    var ss := [(name, JNum(b))];
    assert ss[..0] == [] && ss[..1] == ss;
    assert EntryWrite(ss[0]) == Some((PriceKey(name), b));
    FirstFillsStep(map[PriceKey(name) := a], ss, 0, EntryWrite);
  }

  /** A body `{ p2p: ..., seq: ... }` is decoded by the merge. */
  lemma P2PSeqBodyExample(p: seq<(string, Json)>, q: seq<(string, Json)>)
    ensures PublicPrices(JObj([("p2p", JObj(p)), ("seq", JObj(q))])) == Merged(Some(JObj(p)), Some(JObj(q)))
  {
    var raw := JObj([("p2p", JObj(p)), ("seq", JObj(q))]);
    assert "p2p"[0] != "seq"[0];
    GetOfPair("p2p", JObj(p), "seq", JObj(q));
    assert FirstPresent(raw, ["prices", "data"]) == None;
    assert Container(raw) == raw;
    PublicPricesMerge(raw);
  }

  lemma UnknownShapeExample()
    ensures PublicPrices(JObj([("foo", JStr("bar"))])) == map[]
  {
    var es := [("foo", JStr("bar"))];
    var raw := JObj(es);
    assert FirstPresent(raw, ["prices", "data"]) == None;
    assert Container(raw) == raw;
    assert Get(raw, "p2p") == None && Get(raw, "seq") == None;
    assert ItemWrite(es[0]) == None;
    LastWinsStep(es, 0, ItemWrite);
    assert es[..0] == [] && es[..1] == es;
  }

  lemma PublicStatusExample(status: Option<Json>, numText: real -> string)
    ensures PriceBookOutcome(None, Reply(false, status), numText) == Fails(PublicStatus)
  {
  }
}
