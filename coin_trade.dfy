/**
 * The coin-trade evaluator: matches each entry of the coin-price catalog against the market
 * price book through a set of name variants, and ranks the matches by coins earned per unit of
 * market currency.
 *
 * The two catalogs the source imports as static JSON (the durations catalog and the coin-price
 * catalog) are parameters, given as sequences in the order `Object.entries` walks them.
 */
module CoinTrade {
  import opened Wrappers
  import opened Text
  import opened Sorting
  import opened Folds
  import Evaluate

  datatype TradeRow = TradeRow(name: string, kind: string, lastSaleFC: real, coinPrice: real, coinPerFC: real)

  /** What the price index maps a variant to: the price-book name that produced it and its price. */
  datatype Entry = Entry(name: string, price: real)

  type Index = map<string, Entry>

  function CoinPerFC(r: TradeRow): real {
    r.coinPerFC
  }

  // ---------------------------------------------------------------------------------------
  // normKind
  // ---------------------------------------------------------------------------------------

  /** `normKind(k)`: lower-cased, with the plural `fruits` folded into `fruit`. */
  function NormKind(k: string): (r: string)
    ensures Lower(k) == "fruit" || Lower(k) == "fruits" ==> r == "fruit"
    ensures Lower(k) != "fruit" && Lower(k) != "fruits" ==> r == Lower(k)
  {
    var v := Lower(k);
    if v == "fruit" || v == "fruits" then "fruit"
    else if v == "greenhouse" then "greenhouse"
    else v
  }

  lemma NormKindIdempotent(k: string)
    ensures NormKind(NormKind(k)) == NormKind(k)
  {
    LowerIdempotent(k);
    if Lower(k) == "fruit" || Lower(k) == "fruits" {
      assert Lower("fruit") == "fruit";
    }
  }

  // ---------------------------------------------------------------------------------------
  // normName
  // ---------------------------------------------------------------------------------------

  predicate IsKeyChar(c: char) {
    ('a' <= c <= 'z') || ('0' <= c <= '9')
  }

  predicate IsKey(s: string) {
    forall k :: 0 <= k < |s| ==> IsKeyChar(s[k])
  }

  /** What survives of a lower-case character after compatibility decomposition (NFKD), removal
      of the combining marks U+0300..U+036F and removal of everything outside `[a-z0-9]`. Listed
      for ASCII and the Latin-1 Supplement: the letters with a diacritic keep their base letter,
      the ordinal indicators become letters, the superscripts and vulgar fractions become their
      digits, and everything else leaves nothing. */
  function BaseKey(c: char): (r: string)
    ensures IsKey(r)
  {
    if IsKeyChar(c) then [c]
    else if c == '\U{00AA}' || ('\U{00E0}' <= c <= '\U{00E5}') then "a"
    else if c == '\U{00E7}' then "c"
    else if '\U{00E8}' <= c <= '\U{00EB}' then "e"
    else if '\U{00EC}' <= c <= '\U{00EF}' then "i"
    else if c == '\U{00F1}' then "n"
    else if c == '\U{00BA}' || ('\U{00F2}' <= c <= '\U{00F6}') then "o"
    else if '\U{00F9}' <= c <= '\U{00FC}' then "u"
    else if c == '\U{00FD}' || c == '\U{00FF}' then "y"
    else if c == '\U{00B9}' then "1"
    else if c == '\U{00B2}' then "2"
    else if c == '\U{00B3}' then "3"
    else if c == '\U{00BC}' then "14"
    else if c == '\U{00BD}' then "12"
    else if c == '\U{00BE}' then "34"
    else ""
  }

  /** The contribution of one character to `normName`: lower-cased first, then reduced by
      `BaseKey`. A key character stands for itself and white space leaves nothing. */
  function CharKey(c: char): (r: string)
    ensures IsKey(r)
    ensures IsKeyChar(c) ==> r == [c]
    ensures IsSpace(c) ==> r == ""
  {
    BaseKey(LowerChar(c))
  }

  /** `normName(s)`: each character replaced by what it leaves under `CharKey`. */
  function NormName(s: string): (r: string)
    ensures IsKey(r)
    decreases |s|
  {
    if |s| == 0 then ""
    else
      var r := CharKey(s[0]) + NormName(s[1..]);
      assert forall k :: 0 <= k < |r| ==> IsKeyChar(r[k]) by {
        forall k | 0 <= k < |r| ensures IsKeyChar(r[k]) {
          if k >= |CharKey(s[0])| {
            assert r[k] == NormName(s[1..])[k - |CharKey(s[0])|];
          }
        }
      }
      r
  }

  /** `normName` works character by character. */
  lemma {:induction false} NormNameConcat(a: string, b: string)
    ensures NormName(a + b) == NormName(a) + NormName(b)
    decreases |a|
  {
    if |a| > 0 {
      assert (a + b)[1..] == a[1..] + b;
      NormNameConcat(a[1..], b);
    } else {
      assert a + b == b;
    }
  }

  /** A string already made of `[a-z0-9]` is its own `normName`. */
  lemma {:induction false} NormNameOfKey(s: string)
    requires IsKey(s)
    ensures NormName(s) == s
    decreases |s|
  {
    if |s| > 0 {
      assert IsKeyChar(s[0]);
      NormNameOfKey(s[1..]);
      assert s == [s[0]] + s[1..];
    }
  }

  lemma NormNameIdempotent(s: string)
    ensures NormName(NormName(s)) == NormName(s)
  {
    NormNameOfKey(NormName(s));
  }

  /** White space leaves nothing under `normName`. */
  lemma {:induction false} NormNameOfSpaces(s: string)
    requires forall k :: 0 <= k < |s| ==> IsSpace(s[k])
    ensures NormName(s) == ""
    decreases |s|
  {
    if |s| > 0 {
      NormNameOfSpaces(s[1..]);
    }
  }

  /** Leading white space does not change `normName`. */
  lemma NormNameTrimStart(s: string)
    ensures NormName(TrimStart(s)) == NormName(s)
  {
    var t := TrimStart(s);
    var pre := s[..|s| - |t|];
    assert s == pre + t;
    assert forall k :: 0 <= k < |pre| ==> IsSpace(pre[k]) by {
      forall k | 0 <= k < |pre| ensures IsSpace(pre[k]) { assert pre[k] == s[k]; }
    }
    NormNameConcat(pre, t);
    NormNameOfSpaces(pre);
  }

  /** Trailing white space does not change `normName`. */
  lemma NormNameTrimEnd(t: string)
    ensures NormName(TrimEnd(t)) == NormName(t)
  {
    var u := TrimEnd(t);
    var post := t[|u|..];
    assert t == u + post;
    assert forall k :: 0 <= k < |post| ==> IsSpace(post[k]) by {
      forall k | 0 <= k < |post| ensures IsSpace(post[k]) { assert post[k] == t[|u| + k]; }
    }
    NormNameConcat(u, post);
    NormNameOfSpaces(post);
  }

  /** Trimming does not change `normName`. */
  lemma NormNameTrim(s: string)
    ensures NormName(Trim(s)) == NormName(s)
  {
    NormNameTrimStart(s);
    NormNameTrimEnd(TrimStart(s));
  }

  // ---------------------------------------------------------------------------------------
  // variants
  // ---------------------------------------------------------------------------------------

  /** `Array.from(new Set(xs))` with the members of `seen` already in the set: the elements not in
      `seen`, each kept at its first occurrence. */
  function Dedup(xs: seq<string>, seen: set<string>): seq<string>
    decreases |xs|
  {
    if |xs| == 0 then []
    else if xs[0] in seen then Dedup(xs[1..], seen)
    else [xs[0]] + Dedup(xs[1..], seen + {xs[0]})
  }

  /** `Dedup` keeps exactly the elements not yet seen, and keeps each of them once. */
  lemma {:induction false} DedupSpec(xs: seq<string>, seen: set<string>)
    ensures forall x :: x in Dedup(xs, seen) <==> x in xs && x !in seen
    ensures forall i, j :: 0 <= i < j < |Dedup(xs, seen)| ==> Dedup(xs, seen)[i] != Dedup(xs, seen)[j]
    decreases |xs|
  {
    if |xs| > 0 {
      if xs[0] in seen {
        DedupSpec(xs[1..], seen);
        assert forall x :: x in xs <==> x == xs[0] || x in xs[1..];
      } else {
        var rest := Dedup(xs[1..], seen + {xs[0]});
        DedupSpec(xs[1..], seen + {xs[0]});
        assert forall x :: x in xs <==> x == xs[0] || x in xs[1..];
        var r := [xs[0]] + rest;
        forall i, j | 0 <= i < j < |r| ensures r[i] != r[j] {
          if i == 0 {
            assert r[j] == rest[j - 1];
            assert r[j] in rest;
          } else {
            assert r[i] == rest[i - 1] && r[j] == rest[j - 1];
          }
        }
      }
    }
  }

  /** The name forms `variants(s)` collects, in insertion order: the trimmed name, its
      lower-case form, both with white-space runs removed, replaced by `_`, replaced by `-`, and
      `normName` of the trimmed name. */
  function NameForms(s: string): seq<string> {
    var raw := Trim(s);
    var lc := Lower(raw);
    [ raw, lc,
      ReplaceSpaceRuns(raw, ""), ReplaceSpaceRuns(lc, ""),
      ReplaceSpaceRuns(raw, "_"), ReplaceSpaceRuns(lc, "_"),
      ReplaceSpaceRuns(raw, "-"), ReplaceSpaceRuns(lc, "-"),
      NormName(raw) ]
  }

  /** `variants(s)`. */
  function Variants(s: string): seq<string> {
    Dedup(NameForms(s), {})
  }

  /** The variants are exactly the name forms, without duplicates. */
  lemma VariantsSpec(s: string)
    ensures forall v :: v in Variants(s) <==> v in NameForms(s)
    ensures forall i, j :: 0 <= i < j < |Variants(s)| ==> Variants(s)[i] != Variants(s)[j]
  {
    DedupSpec(NameForms(s), {});
  }

  /** The three anchoring variants: the trimmed name, its lower-case form and its `normName`,
      which is also `normName` of the untrimmed name. */
  lemma VariantsContain(s: string)
    ensures Trim(s) in Variants(s)
    ensures Lower(Trim(s)) in Variants(s)
    ensures NormName(Trim(s)) in Variants(s)
    ensures NormName(s) in Variants(s)
  {
    NameFormsAnchors(s);
    VariantsSpec(s);
    NormNameTrim(s);
  }

  lemma NameFormsAnchors(s: string)
    ensures Trim(s) in NameForms(s) && Lower(Trim(s)) in NameForms(s) && NormName(Trim(s)) in NameForms(s)
  {
    var cs := NameForms(s);
    assert cs[0] == Trim(s) && cs[1] == Lower(Trim(s)) && cs[8] == NormName(Trim(s));
  }

  // ---------------------------------------------------------------------------------------
  // KIND_BY_NAME
  // ---------------------------------------------------------------------------------------

  /** The pair a durations entry contributes: `[d.name, normKind(d.kind ?? 'crop')]`. */
  function KindWrite(d: Evaluate.Duration): Option<(string, string)> {
    Some((d.name, NormKind(d.kind.GetOr("crop"))))
  }

  /** `Object.fromEntries(durations.map(...))`: a later entry with the same name replaces an
      earlier one. */
  function KindByName(ds: seq<Evaluate.Duration>): map<string, string> {
    LastWins(ds, KindWrite)
  }

  /** A name has a kind exactly when some durations entry carries it, and the kind is the
      normalised kind of the last such entry, `crop` when that entry has none. */
  lemma KindByNameSpec(ds: seq<Evaluate.Duration>, n: string)
    ensures n in KindByName(ds) <==> exists i :: 0 <= i < |ds| && ds[i].name == n
    ensures n in KindByName(ds) ==>
      exists i :: 0 <= i < |ds| && ds[i].name == n
        && KindByName(ds)[n] == NormKind(ds[i].kind.GetOr("crop"))
        && forall j :: i < j < |ds| ==> ds[j].name != n
  {
    LastWinsSpec(ds, KindWrite, n);
    assert forall i :: 0 <= i < |ds| ==> (Writes(KindWrite(ds[i]), n) <==> ds[i].name == n);
  }

  // ---------------------------------------------------------------------------------------
  // buildPriceIndex
  // ---------------------------------------------------------------------------------------

  /** The keys one price-book name files its entry under: its variants and its `normName`. */
  predicate Produces(n: string, v: string) {
    v in Variants(n) || v == NormName(n)
  }

  /** The `normName` key is already a variant. */
  lemma ProducesVariant(n: string, v: string)
    ensures Produces(n, v) <==> v in Variants(n)
  {
    VariantsContain(n);
  }

  /** The keys `buildPriceIndex` writes one price-book pair under, in order: the name's
      variants, then its `normName`. */
  function IndexKeys(pair: (string, real)): seq<string> {
    Variants(pair.0) + [NormName(pair.0)]
  }

  function PairEntry(pair: (string, real)): Entry {
    Entry(pair.0, pair.1)
  }

  /** The index `buildPriceIndex(prices)` returns. */
  function PriceIndex(ps: seq<(string, real)>): Index {
    Spread(ps, IndexKeys, PairEntry)
  }

  method BuildPriceIndex(prices: seq<(string, real)>) returns (idx: Index)
    ensures idx == PriceIndex(prices)
  {
    idx := map[];
    for i := 0 to |prices|
      invariant idx == PriceIndex(prices[..i])
    {
      var (name, val) := prices[i];
      ghost var before := idx;
      idx := SetEach(idx, Variants(name), Entry(name, val));
      idx := idx[NormName(name) := Entry(name, val)];
      IndexKeysStep(before, prices[i]);
      SpreadStep(prices, i, IndexKeys, PairEntry);
    }
    assert prices[..|prices|] == prices;
  }

  /** `for (const v of ks) idx.set(v, e)`. */
  method SetEach(m: Index, ks: seq<string>, e: Entry) returns (r: Index)
    ensures r == SetAll(m, ks, e)
  {
    r := m;
    for j := 0 to |ks|
      invariant r == SetAll(m, ks[..j], e)
    {
      SetAllStep(m, ks, j, e);
      r := r[ks[j] := e];
    }
    assert ks[..|ks|] == ks;
  }

  /** Writing a pair's index keys is writing its variants, then its `normName`. */
  lemma IndexKeysStep(m: Index, pair: (string, real))
    ensures SetAll(m, IndexKeys(pair), PairEntry(pair))
         == SetAll(m, Variants(pair.0), PairEntry(pair))[NormName(pair.0) := PairEntry(pair)]
  {
    var vs := Variants(pair.0);
    var ks := IndexKeys(pair);
    assert ks[..|vs|] == vs && ks[..|vs| + 1] == ks;
    SetAllStep(m, ks, |vs|, PairEntry(pair));
  }

  /** Every key of the index is produced by some price-book name, and every produced key is in
      the index; the key maps to the pair of the last name that produces it. So every value of
      the index is a genuine price-book pair. */
  lemma PriceIndexSpec(ps: seq<(string, real)>, v: string)
    ensures v in PriceIndex(ps) <==> exists i :: 0 <= i < |ps| && Produces(ps[i].0, v)
    ensures v in PriceIndex(ps) ==>
      exists i :: 0 <= i < |ps| && Produces(ps[i].0, v)
        && PriceIndex(ps)[v] == Entry(ps[i].0, ps[i].1)
        && forall j :: i < j < |ps| ==> !Produces(ps[j].0, v)
  {
    SpreadSpec(ps, IndexKeys, PairEntry, v);
    forall i | 0 <= i < |ps| ensures v in IndexKeys(ps[i]) <==> Produces(ps[i].0, v) {
      IndexKeysProduce(ps[i], v);
    }
  }

  lemma IndexKeysProduce(pair: (string, real), v: string)
    ensures v in IndexKeys(pair) <==> Produces(pair.0, v)
  {
    assert v in IndexKeys(pair) <==> v in Variants(pair.0) || v in [NormName(pair.0)];
  }

  // ---------------------------------------------------------------------------------------
  // Matching and the trade rows
  // ---------------------------------------------------------------------------------------

  /** The entry of the first of `vs` the index holds. */
  function FirstHit(vs: seq<string>, idx: Index): Option<Entry>
    decreases |vs|
  {
    if |vs| == 0 then None
    else if vs[0] in idx then Some(idx[vs[0]])
    else FirstHit(vs[1..], idx)
  }

  /** `FirstHit` finds nothing exactly when no key is in the index, and otherwise returns the
      entry of the first key that is. */
  lemma {:induction false} FirstHitSpec(vs: seq<string>, idx: Index)
    ensures FirstHit(vs, idx).None? <==> forall i :: 0 <= i < |vs| ==> vs[i] !in idx
    ensures FirstHit(vs, idx).Some? ==>
      exists i :: 0 <= i < |vs| && vs[i] in idx && idx[vs[i]] == FirstHit(vs, idx).value
        && forall j :: 0 <= j < i ==> vs[j] !in idx
    decreases |vs|
  {
    if |vs| > 0 && vs[0] !in idx {
      FirstHitSpec(vs[1..], idx);
      assert forall i :: 1 <= i < |vs| ==> vs[i] == vs[1..][i - 1];
      if FirstHit(vs, idx).Some? {
        var i :| 0 <= i < |vs[1..]| && vs[1..][i] in idx && idx[vs[1..][i]] == FirstHit(vs, idx).value
          && forall j :: 0 <= j < i ==> vs[1..][j] !in idx;
        assert vs[i + 1] in idx && idx[vs[i + 1]] == FirstHit(vs, idx).value;
      }
    }
  }

  /** When nothing before position `j` hits, a hit at `j` is the first hit. */
  lemma {:induction false} FirstHitAt(vs: seq<string>, j: nat, idx: Index)
    requires j < |vs| && vs[j] in idx
    requires forall i :: 0 <= i < j ==> vs[i] !in idx
    ensures FirstHit(vs, idx) == Some(idx[vs[j]])
    decreases j
  {
    if j > 0 {
      FirstHitAt(vs[1..], j - 1, idx);
    }
  }

  /** Removing repeats does not change the first hit: probing `variants(s)` finds what probing the
      name forms in their written order finds. */
  lemma {:induction false} FirstHitDedup(xs: seq<string>, seen: set<string>, idx: Index)
    requires forall x :: x in seen ==> x !in idx
    ensures FirstHit(Dedup(xs, seen), idx) == FirstHit(xs, idx)
    decreases |xs|
  {
    if |xs| > 0 {
      if xs[0] in seen {
        FirstHitDedup(xs[1..], seen, idx);
      } else {
        var d := [xs[0]] + Dedup(xs[1..], seen + {xs[0]});
        assert d[0] == xs[0] && d[1..] == Dedup(xs[1..], seen + {xs[0]});
        if xs[0] !in idx {
          FirstHitDedup(xs[1..], seen + {xs[0]}, idx);
        }
      }
    }
  }

  /** The match for a coin-catalog name: the first variant the index holds, else the index entry
      under `normName` of the name, else nothing. */
  function Match(raw: string, idx: Index): Option<Entry> {
    match FirstHit(Variants(raw), idx)
    case Some(e) => Some(e)
    case None => if NormName(raw) in idx then Some(idx[NormName(raw)]) else None
  }

  /** The final `normName` probe never finds anything the variants missed, because `normName` of
      the name is one of its variants. */
  lemma MatchIsFirstHit(raw: string, idx: Index)
    ensures Match(raw, idx) == FirstHit(Variants(raw), idx)
    ensures Match(raw, idx) == FirstHit(NameForms(raw), idx)
  {
    VariantsContain(raw);
    FirstHitSpec(Variants(raw), idx);
    FirstHitDedup(NameForms(raw), {}, idx);
  }

  /** `KIND_BY_NAME[rawName] ?? KIND_BY_NAME[match.name] ?? 'crop'`. */
  function KindOf(raw: string, matched: string, kinds: map<string, string>): (r: string)
    ensures r in kinds.Values || r == "crop"
  {
    if raw in kinds then kinds[raw] else if matched in kinds then kinds[matched] else "crop"
  }

  /** A row's kind comes from the durations catalog: when an entry carries the coin-catalog name
      it is the last such entry's normalised kind; otherwise, when one carries the matched name,
      the last of those; otherwise `crop`. */
  lemma KindOfCatalog(raw: string, matched: string, ds: seq<Evaluate.Duration>)
    ensures (exists i :: 0 <= i < |ds| && ds[i].name == raw) ==>
      exists i :: 0 <= i < |ds| && ds[i].name == raw
        && KindOf(raw, matched, KindByName(ds)) == NormKind(ds[i].kind.GetOr("crop"))
        && forall j :: i < j < |ds| ==> ds[j].name != raw
    ensures (forall i :: 0 <= i < |ds| ==> ds[i].name != raw) && (exists i :: 0 <= i < |ds| && ds[i].name == matched) ==>
      exists i :: 0 <= i < |ds| && ds[i].name == matched
        && KindOf(raw, matched, KindByName(ds)) == NormKind(ds[i].kind.GetOr("crop"))
        && forall j :: i < j < |ds| ==> ds[j].name != matched
    ensures (forall i :: 0 <= i < |ds| ==> ds[i].name != raw && ds[i].name != matched) ==>
      KindOf(raw, matched, KindByName(ds)) == "crop"
  {
    KindByNameSpec(ds, raw);
    KindByNameSpec(ds, matched);
  }

  /** The row one coin-catalog entry contributes: one exactly when it has a match with a positive
      price. The row shows the catalog's name and coin price, the matched price, their ratio,
      and the kind found under the catalog name or the matched name. */
  function TradeRowFor(c: (string, real), idx: Index, kinds: map<string, string>): (r: Option<TradeRow>)
    ensures r.Some? <==> Match(c.0, idx).Some? && Match(c.0, idx).value.price > 0.0
    ensures r.Some? ==>
      && r.value.name == c.0
      && r.value.coinPrice == c.1
      && r.value.lastSaleFC == Match(c.0, idx).value.price
      && r.value.kind == KindOf(c.0, Match(c.0, idx).value.name, kinds)
    ensures r.Some? ==> r.value.lastSaleFC > 0.0 && r.value.coinPerFC * r.value.lastSaleFC == r.value.coinPrice
  {
    match Match(c.0, idx)
    case None => None
    case Some(e) =>
      if e.price <= 0.0 then None
      else Some(TradeRow(c.0, KindOf(c.0, e.name, kinds), e.price, c.1, c.1 / e.price))
  }

  function RowMaker(idx: Index, kinds: map<string, string>): ((string, real)) -> Option<TradeRow> {
    c => TradeRowFor(c, idx, kinds)
  }

  /** The rows of the coin catalog in catalog order, before sorting. */
  function TradeRows(cs: seq<(string, real)>, idx: Index, kinds: map<string, string>): seq<TradeRow> {
    FilterMap(cs, RowMaker(idx, kinds))
  }

  /** The match search of `evaluateCoinTrade`: the variants probed in order until one hits, then
      the `normName` probe. */
  method FindMatch(rawName: string, idx: Index) returns (hit: Option<Entry>)
    ensures hit == Match(rawName, idx)
  {
    hit := None;
    var vs := Variants(rawName);
    var j := 0;
    while j < |vs|
      invariant j <= |vs|
      invariant hit.None?
      invariant forall k :: 0 <= k < j ==> vs[k] !in idx
    {
      var got := if vs[j] in idx then Some(idx[vs[j]]) else None;
      if got.Some? {
        hit := got;
      }
      if hit.Some? {
        FirstHitAt(vs, j, idx);
        break;
      }
      j := j + 1;
    }
    FirstHitSpec(vs, idx);
    assert hit == FirstHit(vs, idx);
    if hit.None? {
      hit := if NormName(rawName) in idx then Some(idx[NormName(rawName)]) else None;
    }
  }

  /** `evaluateCoinTrade(prices)` with its two catalogs as parameters. */
  function CoinTradeRows(prices: seq<(string, real)>, coins: seq<(string, real)>, ds: seq<Evaluate.Duration>): (out: seq<TradeRow>)
    ensures SortedDesc(out, CoinPerFC)
    ensures multiset(out) == multiset(TradeRows(coins, PriceIndex(prices), KindByName(ds)))
    ensures |out| <= |coins|
  {
    TradeRowsLength(coins, PriceIndex(prices), KindByName(ds));
    SortDesc(TradeRows(coins, PriceIndex(prices), KindByName(ds)), CoinPerFC)
  }

  method EvaluateCoinTrade(prices: seq<(string, real)>, coins: seq<(string, real)>, ds: seq<Evaluate.Duration>)
    returns (out: seq<TradeRow>)
    ensures out == CoinTradeRows(prices, coins, ds)
  {
    out := [];
    var priceIndex := BuildPriceIndex(prices);
    var kinds := KindByName(ds);
    for i := 0 to |coins|
      invariant out == TradeRows(coins[..i], priceIndex, kinds)
    {
      var (rawName, coinPrice) := coins[i];
      FilterMapStep(coins, i, RowMaker(priceIndex, kinds));
      assert RowMaker(priceIndex, kinds)(coins[i]) == TradeRowFor(coins[i], priceIndex, kinds);
      var hit := FindMatch(rawName, priceIndex);
      if hit.None? || hit.value.price <= 0.0 {
        continue;
      }
      var lastSaleFC := hit.value.price;
      var coinPerFC := coinPrice / lastSaleFC;
      var kind :=
        if rawName in kinds then kinds[rawName]
        else if hit.value.name in kinds then kinds[hit.value.name]
        else "crop";
      out := out + [TradeRow(rawName, kind, lastSaleFC, coinPrice, coinPerFC)];
    }
    assert coins[..|coins|] == coins;
    out := SortDesc(out, CoinPerFC);
  }

  lemma TradeRowsLength(cs: seq<(string, real)>, idx: Index, kinds: map<string, string>)
    ensures |TradeRows(cs, idx, kinds)| <= |cs|
  {
    FilterMapLength(cs, RowMaker(idx, kinds));
  }

  /** A row is produced exactly when some coin-catalog entry contributes it. */
  lemma TradeRowsExactly(cs: seq<(string, real)>, idx: Index, kinds: map<string, string>, r: TradeRow)
    ensures r in TradeRows(cs, idx, kinds) <==> exists i :: 0 <= i < |cs| && TradeRowFor(cs[i], idx, kinds) == Some(r)
  {
    FilterMapExactly(cs, RowMaker(idx, kinds), r);
    assert forall i :: 0 <= i < |cs| ==> RowMaker(idx, kinds)(cs[i]) == TradeRowFor(cs[i], idx, kinds);
  }

  /** Every output row comes from a coin-catalog entry with a positively priced match, and every
      such entry has its row in the output. */
  lemma CoinTradeRowsExactly(prices: seq<(string, real)>, coins: seq<(string, real)>, ds: seq<Evaluate.Duration>)
    ensures forall r :: r in CoinTradeRows(prices, coins, ds) ==>
      exists i :: 0 <= i < |coins| && TradeRowFor(coins[i], PriceIndex(prices), KindByName(ds)) == Some(r)
    ensures forall i :: 0 <= i < |coins| && TradeRowFor(coins[i], PriceIndex(prices), KindByName(ds)).Some? ==>
      TradeRowFor(coins[i], PriceIndex(prices), KindByName(ds)).value in CoinTradeRows(prices, coins, ds)
  {
    var idx, kinds := PriceIndex(prices), KindByName(ds);
    var out := CoinTradeRows(prices, coins, ds);
    forall r | r in out ensures exists i :: 0 <= i < |coins| && TradeRowFor(coins[i], idx, kinds) == Some(r) {
      assert r in multiset(out);
      TradeRowsExactly(coins, idx, kinds, r);
    }
    forall i | 0 <= i < |coins| && TradeRowFor(coins[i], idx, kinds).Some?
      ensures TradeRowFor(coins[i], idx, kinds).value in out
    {
      var r := TradeRowFor(coins[i], idx, kinds).value;
      TradeRowsExactly(coins, idx, kinds, r);
      assert r in multiset(TradeRows(coins, idx, kinds));
    }
  }

  /** Rows with equal ratios keep coin-catalog order. */
  lemma CoinTradeRowsStable(prices: seq<(string, real)>, coins: seq<(string, real)>, ds: seq<Evaluate.Duration>, ratio: real)
    ensures WithKey(CoinTradeRows(prices, coins, ds), CoinPerFC, ratio)
         == WithKey(TradeRows(coins, PriceIndex(prices), KindByName(ds)), CoinPerFC, ratio)
  {
    SortDescStable(TradeRows(coins, PriceIndex(prices), KindByName(ds)), CoinPerFC, ratio);
  }

  /** With distinct coin-catalog names, as a JSON object has, no name appears in two rows: at most
      one row per entry. */
  lemma CoinTradeRowsDistinctNames(prices: seq<(string, real)>, coins: seq<(string, real)>, ds: seq<Evaluate.Duration>)
    requires forall i, j :: 0 <= i < j < |coins| ==> coins[i].0 != coins[j].0
    ensures forall i, j :: 0 <= i < j < |CoinTradeRows(prices, coins, ds)| ==>
      CoinTradeRows(prices, coins, ds)[i].name != CoinTradeRows(prices, coins, ds)[j].name
  {
    var idx, kinds := PriceIndex(prices), KindByName(ds);
    TradeRowsDistinctNames(coins, idx, kinds);
    DistinctNamesPermuted(TradeRows(coins, idx, kinds), CoinTradeRows(prices, coins, ds));
  }

  lemma {:induction false} TradeRowsDistinctNames(cs: seq<(string, real)>, idx: Index, kinds: map<string, string>)
    requires forall i, j :: 0 <= i < j < |cs| ==> cs[i].0 != cs[j].0
    ensures forall i, j :: 0 <= i < j < |TradeRows(cs, idx, kinds)| ==>
      TradeRows(cs, idx, kinds)[i].name != TradeRows(cs, idx, kinds)[j].name
    decreases |cs|
  {
    if |cs| > 0 {
      var init := cs[..|cs| - 1];
      var rows := TradeRows(init, idx, kinds);
      TradeRowsDistinctNames(init, idx, kinds);
      FilterMapStep(cs, |cs| - 1, RowMaker(idx, kinds));
      assert cs[..|cs|] == cs;
      var last := TradeRowFor(cs[|cs| - 1], idx, kinds);
      assert RowMaker(idx, kinds)(cs[|cs| - 1]) == last;
      if last.Some? {
        forall i | 0 <= i < |rows| ensures rows[i].name != cs[|cs| - 1].0 {
          assert rows[i] in rows;
          TradeRowsExactly(init, idx, kinds, rows[i]);
        }
        AppendDistinctName(rows, last.value);
      }
    }
  }

  lemma AppendDistinctName(rows: seq<TradeRow>, x: TradeRow)
    requires forall i, j :: 0 <= i < j < |rows| ==> rows[i].name != rows[j].name
    requires forall i :: 0 <= i < |rows| ==> rows[i].name != x.name
    ensures forall i, j :: 0 <= i < j < |rows + [x]| ==> (rows + [x])[i].name != (rows + [x])[j].name
  {
    var all := rows + [x];
    forall i, j | 0 <= i < j < |all| ensures all[i].name != all[j].name {
      if j < |rows| {
        assert all[i] == rows[i] && all[j] == rows[j];
      } else {
        assert all[i] == rows[i];
      }
    }
  }

  /** Name-distinctness survives any permutation. */
  lemma DistinctNamesPermuted(a: seq<TradeRow>, b: seq<TradeRow>)
    requires multiset(a) == multiset(b)
    requires forall i, j :: 0 <= i < j < |a| ==> a[i].name != a[j].name
    ensures forall i, j :: 0 <= i < j < |b| ==> b[i].name != b[j].name
  {
    forall i, j | 0 <= i < j < |b| ensures b[i].name != b[j].name {
      if b[i].name == b[j].name {
        assert b[i] in multiset(a) && b[j] in multiset(a);
        var p :| 0 <= p < |a| && a[p] == b[i];
        var q :| 0 <= q < |a| && a[q] == b[j];
        NameDeterminesIndex(a, p, q);
        OnlyOnce(a, p);
        TwiceCounted(b, i, j);
      }
    }
  }

  lemma NameDeterminesIndex(a: seq<TradeRow>, p: nat, q: nat)
    requires p < |a| && q < |a|
    requires forall i, j :: 0 <= i < j < |a| ==> a[i].name != a[j].name
    ensures a[p].name == a[q].name ==> p == q
  {
    if p < q { assert a[p].name != a[q].name; }
    if q < p { assert a[q].name != a[p].name; }
  }

  /** An element of a sequence with distinct names occurs exactly once. */
  lemma OnlyOnce(a: seq<TradeRow>, p: nat)
    requires p < |a|
    requires forall i, j :: 0 <= i < j < |a| ==> a[i].name != a[j].name
    ensures multiset(a)[a[p]] == 1
  {
    var x := a[p];
    assert a == a[..p] + [x] + a[p + 1..];
    assert x !in a[..p] by {
      forall k | 0 <= k < p ensures a[..p][k] != x { assert a[k].name != a[p].name; }
    }
    var rest := a[p + 1..];
    assert x !in rest by {
      forall k | 0 <= k < |rest| ensures rest[k] != x {
        assert rest[k] == a[p + 1 + k];
        assert a[p].name != a[p + 1 + k].name;
      }
    }
    assert multiset(a) == multiset(a[..p]) + multiset{x} + multiset(a[p + 1..]);
  }

  lemma TwiceCounted(b: seq<TradeRow>, i: nat, j: nat)
    requires i < j < |b| && b[i] == b[j]
    ensures multiset(b)[b[i]] >= 2
  {
    assert b == b[..j] + b[j..];
    assert b[i] == b[..j][i];
    assert b[j] == b[j..][0];
    assert multiset(b) == multiset(b[..j]) + multiset(b[j..]);
  }

  /** Names that reduce to the same `normName` match: a coin-catalog name is priced from a
      one-entry book whenever its `normName` is that of the book's name. */
  lemma SameKeyMatches(raw: string, coin: real, n: string, p: real, kinds: map<string, string>)
    requires p > 0.0 && NormName(raw) == NormName(n)
    ensures TradeRowFor((raw, coin), PriceIndex([(n, p)]), kinds)
         == Some(TradeRow(raw, KindOf(raw, n, kinds), p, coin, coin / p))
  {
    var idx := PriceIndex([(n, p)]);
    PriceIndexSpec([(n, p)], NormName(raw));
    forall v | v in idx ensures idx[v] == Entry(n, p) {
      PriceIndexSpec([(n, p)], v);
    }
    var vs := Variants(raw);
    FirstHitSpec(vs, idx);
    if FirstHit(vs, idx).Some? {
      var i :| 0 <= i < |vs| && vs[i] in idx && idx[vs[i]] == FirstHit(vs, idx).value
        && forall j :: 0 <= j < i ==> vs[j] !in idx;
    }
  }
}
