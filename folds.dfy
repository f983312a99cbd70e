/**
 * The loop shapes the source uses to build its maps and lists, written once over an arbitrary
 * step function: each loop of the model is one of these folds with its own step.
 *
 * Every fold is defined by its last element, so that after `i` turns of a loop the state is the
 * fold of the first `i` elements.
 */
module Folds {
  import opened Wrappers

  /** A step that writes `w.value.1` under the key `k`. */
  predicate Writes<V>(w: Option<(string, V)>, k: string) {
    w.Some? && w.value.0 == k
  }

  /** `out[key] = val` for each step that writes: a later write to a key replaces an earlier one. */
  function LastWins<E, V>(es: seq<E>, w: E -> Option<(string, V)>): map<string, V>
    decreases |es|
  {
    if |es| == 0 then map[]
    else
      var m := LastWins(es[..|es| - 1], w);
      match w(es[|es| - 1])
      case Some(p) => m[p.0 := p.1]
      case None => m
  }

  /** `if (!out[key] && ...) out[key] = val` starting from `base`: a step only fills a key that is
      still missing, so the first write to a key stays. */
  function FirstFills<E, V>(base: map<string, V>, es: seq<E>, w: E -> Option<(string, V)>): map<string, V>
    decreases |es|
  {
    if |es| == 0 then base
    else
      var m := FirstFills(base, es[..|es| - 1], w);
      match w(es[|es| - 1])
      case Some(p) => if p.0 in m then m else m[p.0 := p.1]
      case None => m
  }

  /** A key is in the map exactly when some step writes it, and then it holds the value of the
      last step that does. */
  lemma {:induction false} LastWinsSpec<E, V>(es: seq<E>, w: E -> Option<(string, V)>, k: string)
    ensures k in LastWins(es, w) <==> exists i :: 0 <= i < |es| && Writes(w(es[i]), k)
    ensures k in LastWins(es, w) ==>
      exists i :: 0 <= i < |es| && w(es[i]) == Some((k, LastWins(es, w)[k]))
        && forall j :: i < j < |es| ==> !Writes(w(es[j]), k)
    decreases |es|
  {
    if |es| > 0 {
      var init := es[..|es| - 1];
      LastWinsSpec(init, w, k);
      assert forall i :: 0 <= i < |init| ==> init[i] == es[i];
      if exists i :: 0 <= i < |es| && Writes(w(es[i]), k) {
        var i :| 0 <= i < |es| && Writes(w(es[i]), k);
        if i < |init| { assert Writes(w(init[i]), k); }
      }
    }
  }

  /** Keys of `base` keep their values; another key is in the map exactly when some step writes
      it, and then it holds the value of the first step that does. */
  lemma {:induction false} FirstFillsSpec<E, V>(base: map<string, V>, es: seq<E>, w: E -> Option<(string, V)>, k: string)
    ensures k in FirstFills(base, es, w) <==> k in base || exists i :: 0 <= i < |es| && Writes(w(es[i]), k)
    ensures k in base ==> FirstFills(base, es, w)[k] == base[k]
    ensures k !in base && k in FirstFills(base, es, w) ==>
      exists i :: 0 <= i < |es| && w(es[i]) == Some((k, FirstFills(base, es, w)[k]))
        && forall j :: 0 <= j < i ==> !Writes(w(es[j]), k)
    decreases |es|
  {
    if |es| > 0 {
      var init := es[..|es| - 1];
      FirstFillsSpec(base, init, w, k);
      assert forall i :: 0 <= i < |init| ==> init[i] == es[i];
      if exists i :: 0 <= i < |es| && Writes(w(es[i]), k) {
        var i :| 0 <= i < |es| && Writes(w(es[i]), k);
        if i < |init| { assert Writes(w(init[i]), k); }
      }
    }
  }

  /** One more loop step. */
  lemma LastWinsStep<E, V>(es: seq<E>, i: nat, w: E -> Option<(string, V)>)
    requires i < |es|
    ensures LastWins(es[..i + 1], w)
         == match w(es[i]) case Some(p) => LastWins(es[..i], w)[p.0 := p.1] case None => LastWins(es[..i], w)
  {
    assert es[..i + 1][..i] == es[..i];
  }

  lemma FirstFillsStep<E, V>(base: map<string, V>, es: seq<E>, i: nat, w: E -> Option<(string, V)>)
    requires i < |es|
    ensures FirstFills(base, es[..i + 1], w)
         == match w(es[i])
            case Some(p) => if p.0 in FirstFills(base, es[..i], w) then FirstFills(base, es[..i], w)
                            else FirstFills(base, es[..i], w)[p.0 := p.1]
            case None => FirstFills(base, es[..i], w)
  {
    assert es[..i + 1][..i] == es[..i];
  }

  /** A walk that stops with an exception at the first element `throws` accepts, and otherwise
      builds `LastWins(es, w)`. */
  function Walk<E, V>(es: seq<E>, throws: E -> bool, w: E -> Option<(string, V)>): Option<map<string, V>>
    decreases |es|
  {
    if |es| == 0 then Some(map[])
    else match Walk(es[..|es| - 1], throws, w)
      case None => None
      case Some(m) =>
        if throws(es[|es| - 1]) then None
        else match w(es[|es| - 1])
          case Some(p) => Some(m[p.0 := p.1])
          case None => Some(m)
  }

  lemma WalkStep<E, V>(es: seq<E>, i: nat, throws: E -> bool, w: E -> Option<(string, V)>)
    requires i < |es|
    ensures Walk(es[..i + 1], throws, w)
         == match Walk(es[..i], throws, w)
            case None => None
            case Some(m) =>
              if throws(es[i]) then None
              else match w(es[i]) case Some(p) => Some(m[p.0 := p.1]) case None => Some(m)
  {
    assert es[..i + 1][..i] == es[..i];
  }

  /** Once the walk has thrown, it stays thrown. */
  lemma {:induction false} WalkAborts<E, V>(es: seq<E>, j: nat, throws: E -> bool, w: E -> Option<(string, V)>)
    requires j <= |es| && Walk(es[..j], throws, w).None?
    ensures Walk(es, throws, w).None?
    decreases |es| - j
  {
    if j < |es| {
      WalkStep(es, j, throws, w);
      WalkAborts(es, j + 1, throws, w);
    } else {
      assert es[..j] == es;
    }
  }

  /** The walk throws exactly when some element throws, and otherwise builds `LastWins`. */
  lemma {:induction false} WalkIsLastWins<E, V>(es: seq<E>, throws: E -> bool, w: E -> Option<(string, V)>)
    ensures Walk(es, throws, w).Some? <==> forall i :: 0 <= i < |es| ==> !throws(es[i])
    ensures Walk(es, throws, w).Some? ==> Walk(es, throws, w) == Some(LastWins(es, w))
    decreases |es|
  {
    if |es| > 0 {
      var init := es[..|es| - 1];
      WalkIsLastWins(init, throws, w);
      assert forall i :: 0 <= i < |init| ==> init[i] == es[i];
      if exists i :: 0 <= i < |init| && throws(init[i]) {
        var i :| 0 <= i < |init| && throws(init[i]);
        assert throws(es[i]);
      }
    }
  }


  // ---------------------------------------------------------------------------------------
  // map / filter
  // ---------------------------------------------------------------------------------------

  /** `es.map(f).filter(...)` where `f` gives `None` for the elements the filter drops. */
  function FilterMap<E, R>(es: seq<E>, f: E -> Option<R>): seq<R>
    decreases |es|
  {
    if |es| == 0 then []
    else FilterMap(es[..|es| - 1], f) + match f(es[|es| - 1]) case Some(r) => [r] case None => []
  }

  lemma FilterMapStep<E, R>(es: seq<E>, i: nat, f: E -> Option<R>)
    requires i < |es|
    ensures FilterMap(es[..i + 1], f) == FilterMap(es[..i], f) + match f(es[i]) case Some(r) => [r] case None => []
  {
    assert es[..i + 1][..i] == es[..i];
  }

  lemma {:induction false} FilterMapLength<E, R>(es: seq<E>, f: E -> Option<R>)
    ensures |FilterMap(es, f)| <= |es|
    decreases |es|
  {
    if |es| > 0 {
      FilterMapLength(es[..|es| - 1], f);
    }
  }

  /** An element is in the result exactly when some input element maps to it. */
  lemma {:induction false} FilterMapExactly<E, R>(es: seq<E>, f: E -> Option<R>, r: R)
    ensures r in FilterMap(es, f) <==> exists i :: 0 <= i < |es| && f(es[i]) == Some(r)
    decreases |es|
  {
    if |es| > 0 {
      var init := es[..|es| - 1];
      FilterMapExactly(init, f, r);
      assert forall i :: 0 <= i < |init| ==> init[i] == es[i];
      if exists i :: 0 <= i < |es| && f(es[i]) == Some(r) {
        var i :| 0 <= i < |es| && f(es[i]) == Some(r);
        if i < |init| {
          assert f(init[i]) == Some(r);
        }
      }
    }
  }

  // ---------------------------------------------------------------------------------------
  // Several keys per element
  // ---------------------------------------------------------------------------------------

  /** `m.set(k, v)` for each `k` of `ks` in turn. */
  function SetAll<V>(m: map<string, V>, ks: seq<string>, v: V): (r: map<string, V>)
    ensures forall k :: k in r <==> k in m || k in ks
    ensures forall k :: k in r ==> r[k] == if k in ks then v else m[k]
    decreases |ks|
  {
    if |ks| == 0 then m
    else
      var r := SetAll(m, ks[..|ks| - 1], v)[ks[|ks| - 1] := v];
      assert forall k :: k in ks <==> k in ks[..|ks| - 1] || k == ks[|ks| - 1] by {
        assert ks == ks[..|ks| - 1] + [ks[|ks| - 1]];
      }
      r
  }

  lemma SetAllStep<V>(m: map<string, V>, ks: seq<string>, j: nat, v: V)
    requires j < |ks|
    ensures SetAll(m, ks[..j + 1], v) == SetAll(m, ks[..j], v)[ks[j] := v]
  {
    assert ks[..j + 1][..j] == ks[..j];
  }

  /** For each element in turn, its value is written under each of its keys: a later element
      replaces what an earlier one wrote under a shared key. */
  function Spread<E, V>(es: seq<E>, keys: E -> seq<string>, val: E -> V): map<string, V>
    decreases |es|
  {
    if |es| == 0 then map[]
    else SetAll(Spread(es[..|es| - 1], keys, val), keys(es[|es| - 1]), val(es[|es| - 1]))
  }

  lemma SpreadStep<E, V>(es: seq<E>, i: nat, keys: E -> seq<string>, val: E -> V)
    requires i < |es|
    ensures Spread(es[..i + 1], keys, val) == SetAll(Spread(es[..i], keys, val), keys(es[i]), val(es[i]))
  {
    assert es[..i + 1][..i] == es[..i];
  }

  /** A key is in the map exactly when some element has it among its keys, and it then holds the
      value of the last such element. */
  lemma {:induction false} SpreadSpec<E, V>(es: seq<E>, keys: E -> seq<string>, val: E -> V, k: string)
    ensures k in Spread(es, keys, val) <==> exists i :: 0 <= i < |es| && k in keys(es[i])
    ensures k in Spread(es, keys, val) ==>
      exists i :: 0 <= i < |es| && k in keys(es[i])
        && Spread(es, keys, val)[k] == val(es[i])
        && forall j :: i < j < |es| ==> k !in keys(es[j])
    decreases |es|
  {
    if |es| > 0 {
      var init := es[..|es| - 1];
      SpreadSpec(init, keys, val, k);
      assert forall i :: 0 <= i < |init| ==> init[i] == es[i];
      if exists i :: 0 <= i < |es| && k in keys(es[i]) {
        var i :| 0 <= i < |es| && k in keys(es[i]);
        if i < |init| { assert k in keys(init[i]); }
      }
    }
  }
}
