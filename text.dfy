/**
 * The JavaScript string primitives the price pipeline relies on: `trim`, `toLowerCase`,
 * the regular-expression class `\s`, `replace(/\s+/g, rep)` and the decimal text of an
 * array index (the keys `Object.entries` gives an array).
 */
module Text {

  /** The characters `String.prototype.trim` removes, which are also the members of the
      regular-expression class `\s`: ECMAScript's WhiteSpace and LineTerminator characters. */
  predicate IsSpace(c: char) {
    || c == '\t' || c == '\n' || c == '\U{000B}' || c == '\U{000C}' || c == '\r' || c == ' '
    || c == '\U{00A0}' || c == '\U{1680}' || ('\U{2000}' <= c <= '\U{200A}')
    || c == '\U{2028}' || c == '\U{2029}' || c == '\U{202F}' || c == '\U{205F}'
    || c == '\U{3000}' || c == '\U{FEFF}'
  }

  predicate SpaceFree(s: string) {
    forall k :: 0 <= k < |s| ==> !IsSpace(s[k])
  }

  /** Upper-case letters of ASCII and of the Latin-1 Supplement (U+00C0..U+00DE without the
      multiplication sign U+00D7); each has its lower-case partner 32 code points above it. */
  predicate IsUpper(c: char) {
    ('A' <= c <= 'Z') || ('\U{00C0}' <= c <= '\U{00DE}' && c != '\U{00D7}')
  }

  /** `toLowerCase` on one character, for the characters the model covers. */
  function LowerChar(c: char): (d: char)
    ensures !IsUpper(d)
    ensures IsUpper(c) ==> d as int == c as int + 32
    ensures !IsUpper(c) ==> d == c
    ensures IsSpace(d) <==> IsSpace(c)
  {
    if IsUpper(c) then (c as int + 32) as char else c
  }

  /** `String.prototype.toLowerCase`: every upper-case letter is replaced by its lower-case
      partner and nothing else changes. */
  function Lower(s: string): (r: string)
    ensures |r| == |s|
    ensures forall k :: 0 <= k < |s| ==> r[k] == LowerChar(s[k])
    ensures forall k :: 0 <= k < |r| ==> !IsUpper(r[k])
  {
    seq(|s|, k requires 0 <= k < |s| => LowerChar(s[k]))
  }

  lemma LowerIdempotent(s: string)
    ensures Lower(Lower(s)) == Lower(s)
  {
  }

  /** Leading white space removed: `r` is a suffix of `s`, everything cut off is white space and
      `r` does not start with white space. */
  function TrimStart(s: string): (r: string)
    ensures |r| <= |s| && r == s[|s| - |r|..]
    ensures forall k :: 0 <= k < |s| - |r| ==> IsSpace(s[k])
    ensures |r| > 0 ==> !IsSpace(r[0])
    decreases |s|
  {
    if |s| > 0 && IsSpace(s[0]) then TrimStart(s[1..]) else s
  }

  /** Trailing white space removed: `r` is a prefix of `s`, everything cut off is white space and
      `r` does not end with white space. */
  function TrimEnd(s: string): (r: string)
    ensures |r| <= |s| && r == s[..|r|]
    ensures forall k :: |r| <= k < |s| ==> IsSpace(s[k])
    ensures |r| > 0 ==> !IsSpace(r[|r| - 1])
    decreases |s|
  {
    if |s| > 0 && IsSpace(s[|s| - 1]) then TrimEnd(s[..|s| - 1]) else s
  }

  /** `String.prototype.trim`. */
  function Trim(s: string): (r: string)
    ensures |r| > 0 ==> !IsSpace(r[0]) && !IsSpace(r[|r| - 1])
    ensures |r| <= |s|
  {
    TrimEnd(TrimStart(s))
  }

  /** `r` is the slice of `s` starting at `i`, with only white space before and after it. */
  predicate SliceWithin(s: string, i: int, r: string) {
    && 0 <= i <= |s| - |r|
    && r == s[i..i + |r|]
    && (forall k :: 0 <= k < i ==> IsSpace(s[k]))
    && (forall k :: i + |r| <= k < |s| ==> IsSpace(s[k]))
  }

  /** What `trim` removes: the result is a slice of `s`, and everything before and after it is
      white space. */
  lemma TrimSlice(s: string)
    ensures exists i :: SliceWithin(s, i, Trim(s))
  {
    var t := TrimStart(s);
    var i := |s| - |t|;
    TrimEndWithin(s, i, t);
    assert Trim(s) == TrimEnd(t);
    assert SliceWithin(s, i, Trim(s));
  }

  /** Trimming the end of the suffix `t == s[i..]`, whose cut-off prefix is white space. */
  lemma TrimEndWithin(s: string, i: nat, t: string)
    requires i <= |s| && t == s[i..] && forall k :: 0 <= k < i ==> IsSpace(s[k])
    ensures SliceWithin(s, i, TrimEnd(t))
  {
    var r := TrimEnd(t);
    SuffixIndex(s, i);
    assert r == t[..|r|];
    assert t[..|r|] == s[i..i + |r|];
  }

  lemma SuffixIndex(s: string, i: nat)
    requires i <= |s|
    ensures forall k :: i <= k < |s| ==> s[i..][k - i] == s[k]
  {
  }

  /** A string that neither starts nor ends with white space is left alone by `trim`. */
  lemma TrimOfTrimmed(s: string)
    requires |s| > 0 ==> !IsSpace(s[0]) && !IsSpace(s[|s| - 1])
    ensures Trim(s) == s
  {
  }

  /** `trim(s).toLowerCase()`, the key the price book files a name under. */
  function PriceKey(name: string): (k: string)
    ensures |k| > 0 ==> !IsSpace(k[0]) && !IsSpace(k[|k| - 1])
    ensures forall i :: 0 <= i < |k| ==> !IsUpper(k[i])
  {
    Lower(Trim(name))
  }

  /** A price-book key is its own key: it is already trimmed and lower-case. */
  lemma PriceKeyIdempotent(name: string)
    ensures PriceKey(PriceKey(name)) == PriceKey(name)
  {
    var k := PriceKey(name);
    TrimOfTrimmed(k);
    assert Lower(k) == k;
  }

  /** `s.replace(/\s+/g, rep)`: every maximal run of white space becomes one copy of `rep`. */
  function ReplaceSpaceRuns(s: string, rep: string): string
    decreases |s|
  {
    if |s| == 0 then ""
    else if IsSpace(s[0]) then
      var rest := TrimStart(s);
      assert |rest| < |s|;
      rep + ReplaceSpaceRuns(rest, rep)
    else [s[0]] + ReplaceSpaceRuns(s[1..], rep)
  }

  /** Replacing by white-space-free text leaves no white space, and text without white space
      is left as it is. */
  lemma {:induction false} ReplaceSpaceRunsSpec(s: string, rep: string)
    ensures SpaceFree(rep) ==> SpaceFree(ReplaceSpaceRuns(s, rep))
    ensures SpaceFree(s) ==> ReplaceSpaceRuns(s, rep) == s
    decreases |s|
  {
    if |s| > 0 {
      if IsSpace(s[0]) {
        ReplaceSpaceRunsSpec(TrimStart(s), rep);
      } else {
        ReplaceSpaceRunsSpec(s[1..], rep);
        assert SpaceFree(s) ==> SpaceFree(s[1..]) by {
          if SpaceFree(s) {
            forall k | 0 <= k < |s| - 1 ensures !IsSpace(s[1..][k]) { assert s[1..][k] == s[k + 1]; }
          }
        }
        assert s == [s[0]] + s[1..];
      }
    }
  }

  /** `trimStart` removes a leading white-space run and stops at the first other character. */
  lemma TrimStartAt(s: string, j: nat)
    requires j <= |s| && (forall k :: 0 <= k < j ==> IsSpace(s[k])) && (j < |s| ==> !IsSpace(s[j]))
    ensures TrimStart(s) == s[j..]
  {
    var r := TrimStart(s);
    var c := |s| - |r|;
    assert c <= j;
    assert c >= j;
  }

  /** `s[..i]` has no white space and `s[i..j]` is a maximal white-space run: `s[..i]` is kept,
      the run becomes one `rep`, and the rest is replaced in turn. With the white-space-free case
      of `ReplaceSpaceRunsSpec`, this pins `ReplaceSpaceRuns` down on every input. */
  lemma {:induction false} ReplaceSpaceRunsAt(s: string, i: nat, j: nat, rep: string)
    requires i < j <= |s|
    requires forall k :: 0 <= k < i ==> !IsSpace(s[k])
    requires forall k :: i <= k < j ==> IsSpace(s[k])
    requires j < |s| ==> !IsSpace(s[j])
    ensures ReplaceSpaceRuns(s, rep) == s[..i] + rep + ReplaceSpaceRuns(s[j..], rep)
    decreases i
  {
    if i == 0 {
      ReplaceSpaceRunsAtRun(s, j, rep);
    } else {
      RunShifted(s, i, j);
      ReplaceSpaceRunsAt(s[1..], i - 1, j - 1, rep);
      ReplaceSpaceRunsShift(s, i, j, rep);
    }
  }

  /** The run of `s` starting at 0. */
  lemma ReplaceSpaceRunsAtRun(s: string, j: nat, rep: string)
    requires 0 < j <= |s| && (forall k :: 0 <= k < j ==> IsSpace(s[k])) && (j < |s| ==> !IsSpace(s[j]))
    ensures ReplaceSpaceRuns(s, rep) == s[..0] + rep + ReplaceSpaceRuns(s[j..], rep)
  {
    TrimStartAt(s, j);
    assert s[..0] + rep == rep;
  }

  /** The same split, one character further on in `s[1..]`. */
  lemma RunShifted(s: string, i: nat, j: nat)
    requires 0 < i < j <= |s|
    requires forall k :: 0 <= k < i ==> !IsSpace(s[k])
    requires forall k :: i <= k < j ==> IsSpace(s[k])
    requires j < |s| ==> !IsSpace(s[j])
    ensures forall k :: 0 <= k < i - 1 ==> !IsSpace(s[1..][k])
    ensures forall k :: i - 1 <= k < j - 1 ==> IsSpace(s[1..][k])
    ensures j - 1 < |s[1..]| ==> !IsSpace(s[1..][j - 1])
    ensures !IsSpace(s[0])
  {
    assert forall k :: 0 <= k < |s| - 1 ==> s[1..][k] == s[k + 1];
  }

  /** Putting the kept first character back in front. */
  lemma ReplaceSpaceRunsShift(s: string, i: nat, j: nat, rep: string)
    requires 0 < i < j <= |s| && !IsSpace(s[0])
    requires ReplaceSpaceRuns(s[1..], rep) == s[1..][..i - 1] + rep + ReplaceSpaceRuns(s[1..][j - 1..], rep)
    ensures ReplaceSpaceRuns(s, rep) == s[..i] + rep + ReplaceSpaceRuns(s[j..], rep)
  {
    var t := s[1..];
    assert t[j - 1..] == s[j..];
    var x := t[..i - 1] + rep + ReplaceSpaceRuns(s[j..], rep);
    ReplaceSpaceRunsHead(s, x, rep);
    assert [s[0]] + x == s[..i] + rep + ReplaceSpaceRuns(s[j..], rep) by {
      assert s[..i] == [s[0]] + t[..i - 1];
    }
  }

  /** A first character that is not white space is kept. */
  lemma ReplaceSpaceRunsHead(s: string, x: string, rep: string)
    requires |s| > 0 && !IsSpace(s[0]) && ReplaceSpaceRuns(s[1..], rep) == x
    ensures ReplaceSpaceRuns(s, rep) == [s[0]] + x
  {
  }

  function DigitChar(d: nat): (c: char)
    requires d < 10
    ensures '0' <= c <= '9'
  {
    ('0' as int + d) as char
  }

  /** The decimal text of a natural number, as JavaScript writes an array index. */
  function DecimalText(n: nat): (r: string)
    ensures |r| > 0
    ensures forall k :: 0 <= k < |r| ==> '0' <= r[k] <= '9'
    decreases n
  {
    if n < 10 then [DigitChar(n)] else DecimalText(n / 10) + [DigitChar(n % 10)]
  }
}
