/**
 * String helpers shared by the key, slug, search and filter code.
 *
 * Strings are sequences of characters. Case conversion is ASCII only: the
 * JavaScript `toLowerCase`/`toUpperCase` the source calls are Unicode-aware,
 * and this model assumes the letters involved are ASCII.
 */
module Text {

  predicate IsUpperAscii(c: char) { 'A' <= c <= 'Z' }

  predicate IsLowerAscii(c: char) { 'a' <= c <= 'z' }

  predicate IsDigit(c: char) { '0' <= c <= '9' }

  /** Membership in the regular-expression class `[a-z0-9]`. */
  predicate IsAlnum(c: char) { IsLowerAscii(c) || IsDigit(c) }

  function ToLowerChar(c: char): (d: char)
    ensures !IsUpperAscii(d)
    ensures IsUpperAscii(c) ==> IsLowerAscii(d)
    ensures !IsUpperAscii(c) ==> d == c
  {
    if IsUpperAscii(c) then (c as int + 32) as char else c
  }

  function ToUpperChar(c: char): (d: char)
    ensures !IsLowerAscii(d)
    ensures !IsLowerAscii(c) ==> d == c
  {
    if IsLowerAscii(c) then (c as int - 32) as char else c
  }

  /** ASCII `toLowerCase`. */
  function Lower(s: string): (r: string)
    ensures |r| == |s|
    ensures forall i :: 0 <= i < |s| ==> r[i] == ToLowerChar(s[i])
  {
    seq(|s|, i requires 0 <= i < |s| => ToLowerChar(s[i]))
  }

  /** ASCII `toUpperCase`. */
  function Upper(s: string): (r: string)
    ensures |r| == |s|
    ensures forall i :: 0 <= i < |s| ==> r[i] == ToUpperChar(s[i])
  {
    seq(|s|, i requires 0 <= i < |s| => ToUpperChar(s[i]))
  }

  lemma LowerConcat(a: string, b: string)
    ensures Lower(a + b) == Lower(a) + Lower(b)
  {
    assert forall i :: 0 <= i < |a + b| ==> Lower(a + b)[i] == (Lower(a) + Lower(b))[i];
  }

  lemma LowerIdempotent(s: string)
    ensures Lower(Lower(s)) == Lower(s)
  {
  }

  /** A string with no upper-case letter is its own lower case. */
  lemma LowerOfLower(s: string)
    requires forall i :: 0 <= i < |s| ==> !IsUpperAscii(s[i])
    ensures Lower(s) == s
  {
  }

  /** `s[..n]`, or all of `s` when it is shorter (`slice(0, n)` for `n >= 0`). */
  function Take(s: string, n: nat): (r: string)
    ensures |r| == if |s| <= n then |s| else n
    ensures r == s[..|r|]
  {
    if |s| <= n then s else s[..n]
  }

  /** No two adjacent characters of `s` are both `c`. */
  predicate NoDoubled(s: string, c: char)
  {
    forall i :: 0 <= i < |s| - 1 ==> s[i] != c || s[i + 1] != c
  }

  /** Every character of `s` is in `[a-z0-9]` or is `sep`. */
  predicate AlnumOr(s: string, sep: char)
  {
    forall i :: 0 <= i < |s| ==> IsAlnum(s[i]) || s[i] == sep
  }

  lemma NoDoubledSlice(s: string, c: char, lo: nat, hi: nat)
    requires NoDoubled(s, c) && lo <= hi <= |s|
    ensures NoDoubled(s[lo..hi], c)
  {
    var t := s[lo..hi];
    forall i | 0 <= i < |t| - 1 ensures t[i] != c || t[i + 1] != c {
      assert t[i] == s[lo + i] && t[i + 1] == s[lo + i + 1];
    }
  }

  /** The characters of `s` that are in `[a-z0-9]`, in order. */
  function AlnumChars(s: string): (r: string)
    ensures |r| <= |s|
    ensures forall i :: 0 <= i < |r| ==> IsAlnum(r[i])
  {
    if s == [] then [] else (if IsAlnum(s[0]) then [s[0]] else []) + AlnumChars(s[1..])
  }

  lemma {:induction false} AlnumCharsConcat(a: string, b: string)
    ensures AlnumChars(a + b) == AlnumChars(a) + AlnumChars(b)
    decreases |a|
  {
    if a != [] {
      assert (a + b)[0] == a[0];
      assert (a + b)[1..] == a[1..] + b;
      AlnumCharsConcat(a[1..], b);
    } else {
      assert a + b == b;
    }
  }

  /** `s` without its leading characters outside `[a-z0-9]`. */
  function DropNonAlnum(s: string): (r: string)
    ensures |r| <= |s| && r == s[|s| - |r|..]
    ensures r == [] || IsAlnum(r[0])
    ensures forall i :: 0 <= i < |s| - |r| ==> !IsAlnum(s[i])
  {
    if s == [] || IsAlnum(s[0]) then s else DropNonAlnum(s[1..])
  }

  lemma {:induction false} DropNonAlnumChars(s: string)
    ensures AlnumChars(DropNonAlnum(s)) == AlnumChars(s)
  {
    if s != [] && !IsAlnum(s[0]) {
      DropNonAlnumChars(s[1..]);
    }
  }

  /**
   * `replace(/[^a-z0-9]+/g, sep)`: every maximal run of characters outside
   * `[a-z0-9]` becomes one `sep`.
   */
  function CollapseNonAlnum(s: string, sep: char): (r: string)
    ensures |r| <= |s|
    decreases |s|
  {
    if s == [] then []
    else if IsAlnum(s[0]) then [s[0]] + CollapseNonAlnum(s[1..], sep)
    else [sep] + CollapseNonAlnum(DropNonAlnum(s[1..]), sep)
  }

  /** One step of the collapse: the first output character and the rest of the input it leaves. */
  lemma CollapseStep(s: string, sep: char)
    requires s != []
    ensures IsAlnum(s[0]) ==> CollapseNonAlnum(s, sep) == [s[0]] + CollapseNonAlnum(s[1..], sep)
    ensures !IsAlnum(s[0]) ==> CollapseNonAlnum(s, sep) == [sep] + CollapseNonAlnum(DropNonAlnum(s[1..]), sep)
  {
  }

  /** The collapsed string is empty only when the input is, and starts like the input. */
  lemma CollapseHead(s: string, sep: char)
    requires s != []
    ensures var r := CollapseNonAlnum(s, sep);
      && r != []
      && (IsAlnum(s[0]) ==> r[0] == s[0])
      && (!IsAlnum(s[0]) ==> r[0] == sep)
  {
    CollapseStep(s, sep);
  }

  /** Putting one allowed character before a collapsed string keeps the shape unless it doubles `sep`. */
  lemma ConsShape(head: char, rt: string, sep: char)
    requires IsAlnum(head) || head == sep
    requires AlnumOr(rt, sep) && NoDoubled(rt, sep)
    requires head == sep && rt != [] ==> rt[0] != sep
    ensures AlnumOr([head] + rt, sep) && NoDoubled([head] + rt, sep)
  {
    var r := [head] + rt;
    forall i | 0 <= i < |r| - 1 ensures r[i] != sep || r[i + 1] != sep {
      if i > 0 {
        assert r[i] == rt[i - 1] && r[i + 1] == rt[i];
      }
    }
    forall i | 0 <= i < |r| ensures IsAlnum(r[i]) || r[i] == sep {
      if i > 0 {
        assert r[i] == rt[i - 1];
      }
    }
  }

  /** The collapsed string holds only `[a-z0-9]` and `sep`, never two `sep` in a row. */
  lemma {:induction false} CollapseShape(s: string, sep: char)
    requires !IsAlnum(sep)
    ensures AlnumOr(CollapseNonAlnum(s, sep), sep)
    ensures NoDoubled(CollapseNonAlnum(s, sep), sep)
    decreases |s|
  {
    if s != [] {
      CollapseStep(s, sep);
      if IsAlnum(s[0]) {
        CollapseShape(s[1..], sep);
        ConsShape(s[0], CollapseNonAlnum(s[1..], sep), sep);
      } else {
        var t := DropNonAlnum(s[1..]);
        CollapseShape(t, sep);
        if t != [] {
          CollapseHead(t, sep);
        }
        ConsShape(sep, CollapseNonAlnum(t, sep), sep);
      }
    }
  }

  /** Input ending in `[a-z0-9]` collapses to output ending in `[a-z0-9]`. */
  lemma {:induction false} CollapseLast(s: string, sep: char)
    requires s != [] && IsAlnum(s[|s| - 1])
    ensures var r := CollapseNonAlnum(s, sep); r != [] && IsAlnum(r[|r| - 1])
    decreases |s|
  {
    if |s| == 1 {
      assert CollapseNonAlnum(s, sep) == [s[0]] + CollapseNonAlnum([], sep);
    } else if IsAlnum(s[0]) {
      var t := s[1..];
      assert t[|t| - 1] == s[|s| - 1];
      CollapseLast(t, sep);
      assert CollapseNonAlnum(s, sep) == [s[0]] + CollapseNonAlnum(t, sep);
      LastOfCons(s[0], CollapseNonAlnum(t, sep));
    } else {
      var u := s[1..];
      assert u[|u| - 1] == s[|s| - 1];
      DropNonAlnumKeepsLast(u);
      var t := DropNonAlnum(u);
      CollapseLast(t, sep);
      assert CollapseNonAlnum(s, sep) == [sep] + CollapseNonAlnum(t, sep);
      LastOfCons(sep, CollapseNonAlnum(t, sep));
    }
  }

  lemma LastOfCons(c: char, t: string)
    requires t != []
    ensures ([c] + t)[|t|] == t[|t| - 1]
  {
  }

  /** Collapsing keeps the `[a-z0-9]` characters, in order, and only those. */
  lemma {:induction false} CollapseKeepsAlnum(s: string, sep: char)
    requires !IsAlnum(sep)
    ensures AlnumChars(CollapseNonAlnum(s, sep)) == AlnumChars(s)
    decreases |s|
  {
    if s != [] {
      if IsAlnum(s[0]) {
        CollapseKeepsAlnum(s[1..], sep);
        assert CollapseNonAlnum(s, sep) == [s[0]] + CollapseNonAlnum(s[1..], sep);
        AlnumCharsConcat([s[0]], CollapseNonAlnum(s[1..], sep));
        AlnumCharsConcat([s[0]], s[1..]);
        assert [s[0]] + s[1..] == s;
      } else {
        var rest := DropNonAlnum(s[1..]);
        CollapseKeepsAlnum(rest, sep);
        DropNonAlnumChars(s[1..]);
        AlnumCharsConcat([sep], CollapseNonAlnum(rest, sep));
        AlnumCharsConcat([s[0]], s[1..]);
        assert [s[0]] + s[1..] == s;
      }
    }
  }

  /** A string already of the collapsed shape is left as it is. */
  lemma {:induction false} CollapseFixpoint(s: string, sep: char)
    requires !IsAlnum(sep) && AlnumOr(s, sep) && NoDoubled(s, sep)
    ensures CollapseNonAlnum(s, sep) == s
    decreases |s|
  {
    if s != [] {
      var t := s[1..];
      assert NoDoubled(t, sep) by { NoDoubledSlice(s, sep, 1, |s|); assert t == s[1..|s|]; }
      assert AlnumOr(t, sep) by {
        forall i | 0 <= i < |t| ensures IsAlnum(t[i]) || t[i] == sep { assert t[i] == s[i + 1]; }
      }
      CollapseFixpoint(t, sep);
      if !IsAlnum(s[0]) {
        assert s[0] == sep;
        assert |t| > 0 ==> t[0] == s[1] && IsAlnum(t[0]);
        assert DropNonAlnum(t) == t;
        assert CollapseNonAlnum(s, sep) == [sep] + CollapseNonAlnum(t, sep);
      } else {
        assert CollapseNonAlnum(s, sep) == [s[0]] + CollapseNonAlnum(t, sep);
      }
      assert s == [s[0]] + t;
    }
  }

  /** Collapsing distributes over a split point that follows a `[a-z0-9]` character. */
  lemma {:induction false} CollapseConcat(a: string, b: string, sep: char)
    requires a != [] && IsAlnum(a[|a| - 1])
    ensures CollapseNonAlnum(a + b, sep) == CollapseNonAlnum(a, sep) + CollapseNonAlnum(b, sep)
    decreases |a|
  {
    var ab := a + b;
    assert ab[0] == a[0];
    assert ab[1..] == a[1..] + b;
    CollapseStep(ab, sep);
    CollapseStep(a, sep);
    var head := if IsAlnum(a[0]) then a[0] else sep;
    var t := if IsAlnum(a[0]) then a[1..] else DropNonAlnum(a[1..]);
    var tb := if IsAlnum(a[0]) then ab[1..] else DropNonAlnum(ab[1..]);
    assert CollapseNonAlnum(ab, sep) == [head] + CollapseNonAlnum(tb, sep);
    assert CollapseNonAlnum(a, sep) == [head] + CollapseNonAlnum(t, sep);
    if IsAlnum(a[0]) && |a| == 1 {
      assert t == [] && tb == b;
      assert CollapseNonAlnum(t, sep) == [];
      assert CollapseNonAlnum(a, sep) == [head];
    } else {
      if !IsAlnum(a[0]) {
        DropNonAlnumKeepsLast(a[1..]);
        DropNonAlnumConcat(a[1..], b);
      }
      assert t != [] && IsAlnum(t[|t| - 1]);
      assert tb == t + b;
      CollapseConcat(t, b, sep);
      var ct, cb := CollapseNonAlnum(t, sep), CollapseNonAlnum(b, sep);
      assert CollapseNonAlnum(tb, sep) == ct + cb;
      ConsAssoc(head, ct, cb);
    }
  }

  lemma ConsAssoc(h: char, x: string, y: string)
    ensures [h] + (x + y) == ([h] + x) + y
  {
  }

  /** Dropping the leading run keeps a final `[a-z0-9]` character. */
  lemma DropNonAlnumKeepsLast(s: string)
    requires s != [] && IsAlnum(s[|s| - 1])
    ensures var r := DropNonAlnum(s); r != [] && r[|r| - 1] == s[|s| - 1]
  {
  }

  lemma {:induction false} DropNonAlnumConcat(a: string, b: string)
    requires a != [] && IsAlnum(a[|a| - 1])
    ensures DropNonAlnum(a + b) == DropNonAlnum(a) + b
    decreases |a|
  {
    assert (a + b)[0] == a[0];
    if !IsAlnum(a[0]) {
      assert (a + b)[1..] == a[1..] + b;
      DropNonAlnumConcat(a[1..], b);
    }
  }

  /** `replace(/c+/g, c)`: every maximal run of `c` becomes one `c`. */
  function CollapseRepeats(s: string, c: char): (r: string)
    ensures NoDoubled(r, c)
    ensures |r| <= |s|
    ensures |s| > 0 ==> |r| > 0 && r[0] == s[0]
    decreases |s|
  {
    if s == [] then []
    else if s[0] != c then [s[0]] + CollapseRepeats(s[1..], c)
    else if |s| > 1 && s[1] == c then CollapseRepeats(s[1..], c)
    else [c] + CollapseRepeats(s[1..], c)
  }

  /** A string with no run of two `c` is its own collapse. */
  lemma {:induction false} CollapseRepeatsFixpoint(s: string, c: char)
    requires NoDoubled(s, c)
    ensures CollapseRepeats(s, c) == s
    decreases |s|
  {
    if s != [] {
      NoDoubledSlice(s, c, 1, |s|);
      assert s[1..] == s[1..|s|];
      CollapseRepeatsFixpoint(s[1..], c);
    }
  }

  /** `replace(/^c|c$/g, '')`: drops one leading and one trailing `c`. */
  function StripEdge(s: string, c: char): (r: string)
    ensures |s| > 0 && s[0] != c && s[|s| - 1] != c ==> r == s
  {
    var a := if |s| > 0 && s[0] == c then s[1..] else s;
    if |a| > 0 && a[|a| - 1] == c then a[..|a| - 1] else a
  }

  /** The stripped string is the input without at most its first and its last character. */
  lemma StripEdgeSlice(s: string, c: char)
    ensures exists lo, hi :: 0 <= lo <= hi <= |s| && StripEdge(s, c) == s[lo..hi] && lo <= 1 && hi >= |s| - 1
  {
    var a := if |s| > 0 && s[0] == c then s[1..] else s;
    var lo := |s| - |a|;
    if |a| > 0 && a[|a| - 1] == c {
      assert a[..|a| - 1] == s[lo..|s| - 1];
    } else {
      assert a == s[lo..|s|];
    }
  }

  /** Stripping a collapsed string leaves no `c` at either end. */
  lemma StripCollapsed(s: string, c: char)
    requires NoDoubled(s, c)
    ensures var r := StripEdge(s, c); r == [] || (r[0] != c && r[|r| - 1] != c)
  {
    var a := if |s| > 0 && s[0] == c then s[1..] else s;
    if |s| > 1 && s[0] == c {
      assert a[0] == s[1];
    }
    if |a| > 1 && a[|a| - 1] == c {
      assert a[|a| - 2] != c by {
        var lo := |s| - |a|;
        assert a[|a| - 2] == s[lo + |a| - 2] && a[|a| - 1] == s[lo + |a| - 1];
      }
    }
  }

  /** Decimal digit character for `0 <= d < 10`. */
  function DigitChar(d: nat): (c: char)
    requires d < 10
    ensures IsDigit(c)
  {
    ('0' as int + d) as char
  }

  /** A number's decimal representation (`${n}` in a template literal). */
  function NatToString(n: nat): (r: string)
    ensures |r| >= 1
    ensures forall i :: 0 <= i < |r| ==> IsDigit(r[i])
    ensures n >= 10 ==> |r| >= 2
  {
    if n < 10 then [DigitChar(n)] else NatToString(n / 10) + [DigitChar(n % 10)]
  }

  /** Distinct numbers have distinct decimal representations. */
  lemma {:induction false} NatToStringInjective(m: nat, n: nat)
    requires NatToString(m) == NatToString(n)
    ensures m == n
  {
    if m >= 10 && n >= 10 {
      var s := NatToString(m);
      assert s[..|s| - 1] == NatToString(m / 10);
      assert s[..|s| - 1] == NatToString(n / 10);
      NatToStringInjective(m / 10, n / 10);
      assert DigitChar(m % 10) == DigitChar(n % 10);
    }
  }

  /** Numbers below 10^10, which includes every JavaScript array length, have at most 10 digits. */
  lemma {:induction false} NatToStringShort(n: nat, k: nat)
    requires 1 <= k <= 10 && n < Pow10(k)
    ensures |NatToString(n)| <= k
  {
    if n >= 10 {
      assert k >= 2;
      NatToStringShort(n / 10, k - 1);
    }
  }

  function Pow10(k: nat): nat
  {
    if k == 0 then 1 else 10 * Pow10(k - 1)
  }

  /** An integer's decimal representation, with a leading `-` when negative. */
  function IntToString(i: int): (r: string)
    ensures i < 0 ==> r == "-" + NatToString(-i)
    ensures i >= 0 ==> r == NatToString(i)
  {
    if i < 0 then "-" + NatToString(-i) else NatToString(i)
  }

  /** `s.includes(t)`: `t` occurs in `s` as a contiguous block. */
  predicate Contains(s: string, t: string)
  {
    exists i: nat :: i <= |s| - |t| && OccursAt(s, t, i)
  }

  /** `t` occurs in `s` starting at index `i`. */
  predicate OccursAt(s: string, t: string, i: nat)
  {
    i + |t| <= |s| && s[i..i + |t|] == t
  }

  lemma ContainsEmpty(s: string)
    ensures Contains(s, "")
  {
    assert OccursAt(s, "", 0);
  }

  /** A string occurs in any string built around it. */
  lemma ContainsMiddle(a: string, b: string, c: string)
    ensures Contains(a + b + c, b)
  {
    var s := a + b + c;
    assert s[|a|..|a| + |b|] == b;
    assert OccursAt(s, b, |a|);
  }

  /** Stripping one edge `sep` off a collapsed string keeps its shape and leaves no `sep` at either end. */
  lemma StrippedShape(s: string, sep: char)
    requires AlnumOr(s, sep) && NoDoubled(s, sep)
    ensures var r := StripEdge(s, sep);
      && AlnumOr(r, sep) && NoDoubled(r, sep)
      && (r == [] || (r[0] != sep && r[|r| - 1] != sep))
  {
    var r := StripEdge(s, sep);
    StripEdgeSlice(s, sep);
    var lo, hi :| 0 <= lo <= hi <= |s| && r == s[lo..hi] && lo <= 1 && hi >= |s| - 1;
    NoDoubledSlice(s, sep, lo, hi);
    forall i | 0 <= i < |r| ensures IsAlnum(r[i]) || r[i] == sep {
      assert r[i] == s[lo + i];
    }
    StripCollapsed(s, sep);
  }

  /** Dropping an edge character outside `[a-z0-9]` keeps the `[a-z0-9]` characters. */
  lemma StripEdgeKeepsAlnum(s: string, c: char)
    requires !IsAlnum(c)
    ensures AlnumChars(StripEdge(s, c)) == AlnumChars(s)
  {
    var a := if |s| > 0 && s[0] == c then s[1..] else s;
    assert AlnumChars(a) == AlnumChars(s) by {
      if |s| > 0 && s[0] == c {
        assert s == [c] + a;
        AlnumCharsConcat([c], a);
      }
    }
    if |a| > 0 && a[|a| - 1] == c {
      assert a == a[..|a| - 1] + [c];
      AlnumCharsConcat(a[..|a| - 1], [c]);
    }
  }
}
