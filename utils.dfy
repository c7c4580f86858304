/** Two display helpers: cutting a string with an ellipsis, and the initials of a name. */
module Utils {
  import opened Text

  /** `str.slice(0, end)`: a negative end counts from the back, and the end is clamped to the string. */
  function SliceTo(s: string, end: int): (r: string)
    ensures end >= 0 ==> r == Take(s, end)
    ensures end < 0 ==> r == s[..if |s| + end > 0 then |s| + end else 0]
  {
    if end >= 0 then Take(s, end)
    else s[..if |s| + end > 0 then |s| + end else 0]
  }

  /**
   * `truncate(str, length)`: the string itself when it fits, otherwise its
   * first `length` characters followed by `...`.
   */
  function Truncate(s: string, length: int): (r: string)
    ensures |s| <= length ==> r == s
    ensures 0 <= length < |s| ==> r == s[..length] + "..." && |r| == length + 3
    ensures length < 0 ==> r == SliceTo(s, length) + "..."
  {
    if |s| <= length then s else SliceTo(s, length) + "..."
  }

  /** A truncated string is never longer than the limit plus the ellipsis, and always starts like the input. */
  lemma TruncateBounds(s: string, length: nat)
    ensures |Truncate(s, length)| <= length + 3
    ensures var r := Truncate(s, length); var n := if |s| <= length then |s| else length; r[..n] == s[..n]
  {
  }

  /** `s.split(c)`: the pieces between the occurrences of `c`; there is always at least one. */
  function SplitOn(s: string, c: char): (r: seq<string>)
    ensures |r| >= 1
    ensures forall i :: 0 <= i < |r| ==> c !in r[i]
    decreases |s|
  {
    if s == [] then [""]
    else
      var rest := SplitOn(s[1..], c);
      if s[0] == c then [""] + rest else [[s[0]] + rest[0]] + rest[1..]
  }

  /** `ws.join(c)`, for a non-empty list of pieces. */
  function Join(ws: seq<string>, c: char): string
    requires |ws| >= 1
    decreases |ws|
  {
    if |ws| == 1 then ws[0] else ws[0] + [c] + Join(ws[1..], c)
  }

  /** Joining the pieces of a split gives the string back. */
  lemma {:induction false} SplitJoin(s: string, c: char)
    ensures Join(SplitOn(s, c), c) == s
    decreases |s|
  {
    if s != [] {
      var rest := SplitOn(s[1..], c);
      SplitJoin(s[1..], c);
      if s[0] == c {
        assert SplitOn(s, c) == [""] + rest;
        assert ([""] + rest)[1..] == rest;
      } else {
        var ws := [[s[0]] + rest[0]] + rest[1..];
        assert SplitOn(s, c) == ws;
        if |rest| == 1 {
          assert Join(rest, c) == rest[0];
        } else {
          assert Join(rest, c) == rest[0] + [c] + Join(rest[1..], c);
          assert ws[1..] == rest[1..];
        }
      }
    }
  }

  /** A string without `c` is one piece. */
  lemma {:induction false} SplitOnWhole(w: string, c: char)
    requires c !in w
    ensures SplitOn(w, c) == [w]
    decreases |w|
  {
    if w != [] {
      assert c !in w[1..];
      SplitOnWhole(w[1..], c);
      assert [w[0]] + w[1..] == w;
    }
  }

  /** A piece without `c` followed by `c` splits off as the first piece. */
  lemma {:induction false} SplitOnFirst(w: string, c: char, rest: string)
    requires c !in w
    ensures SplitOn(w + [c] + rest, c) == [w] + SplitOn(rest, c)
    decreases |w|
  {
    var s := w + [c] + rest;
    if w == [] {
      assert s == [c] + rest && s[1..] == rest;
    } else {
      assert s[0] == w[0] && s[1..] == w[1..] + [c] + rest;
      assert c !in w[1..];
      SplitOnFirst(w[1..], c, rest);
      assert [w[0]] + w[1..] == w;
    }
  }

  /** Splitting a join of pieces without `c` gives the pieces back. */
  lemma {:induction false} JoinSplit(ws: seq<string>, c: char)
    requires |ws| >= 1 && forall i :: 0 <= i < |ws| ==> c !in ws[i]
    ensures SplitOn(Join(ws, c), c) == ws
    decreases |ws|
  {
    if |ws| == 1 {
      SplitOnWhole(ws[0], c);
    } else {
      JoinSplit(ws[1..], c);
      SplitOnFirst(ws[0], c, Join(ws[1..], c));
      assert [ws[0]] + ws[1..] == ws;
    }
  }

  /** `ws.map(w => w[0]).join('')`: the first character of every word; an empty word adds nothing. */
  function FirstChars(ws: seq<string>): (r: string)
    ensures |r| <= |ws|
  {
    if ws == [] then [] else (if ws[0] == [] then [] else [ws[0][0]]) + FirstChars(ws[1..])
  }

  /** The first characters of two word lists put together are theirs put together. */
  lemma {:induction false} FirstCharsConcat(a: seq<string>, b: seq<string>)
    ensures FirstChars(a + b) == FirstChars(a) + FirstChars(b)
    decreases |a|
  {
    if a != [] {
      assert (a + b)[0] == a[0] && (a + b)[1..] == a[1..] + b;
      FirstCharsConcat(a[1..], b);
    } else {
      assert a + b == b;
    }
  }

  /** `getInitials`: the upper-cased first characters of the space-separated words, at most two. */
  function GetInitials(name: string): (r: string)
    ensures |r| <= 2
  {
    Take(Upper(FirstChars(SplitOn(name, ' '))), 2)
  }

  /**
   * For a name made of words joined by single spaces, the initials are the
   * first characters of the words, upper-cased, in order, cut at two.
   */
  lemma InitialsOfWords(ws: seq<string>)
    requires |ws| >= 1 && forall i :: 0 <= i < |ws| ==> ' ' !in ws[i]
    ensures GetInitials(Join(ws, ' ')) == Take(Upper(FirstChars(ws)), 2)
  {
    JoinSplit(ws, ' ');
  }

  /** An empty word, as a repeated, leading or trailing space makes, adds no initial. */
  lemma EmptyWordAddsNothing(a: seq<string>, b: seq<string>)
    ensures FirstChars(a + [""] + b) == FirstChars(a + b)
  {
    assert FirstChars([""]) == [];
    FirstCharsConcat(a + [""], b);
    FirstCharsConcat(a, [""]);
    FirstCharsConcat(a, b);
  }

  /** Two non-empty words give the upper-cased first letter of each. */
  lemma InitialsOfTwoWords(first: string, last: string)
    requires first != [] && last != [] && ' ' !in first && ' ' !in last
    ensures GetInitials(first + " " + last) == Upper([first[0], last[0]])
  {
    var ws := [first, last];
    assert Join(ws, ' ') == first + " " + last by {
      assert Join(ws[1..], ' ') == last;
    }
    InitialsOfWords(ws);
    assert FirstChars(ws) == [first[0], last[0]] by {
      assert FirstChars(ws[1..]) == [last[0]] + FirstChars(ws[2..]);
    }
  }
}
