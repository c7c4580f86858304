/**
 * The list logic of the tag input: adding a trimmed tag subject to three
 * rejections, removing a tag by index, and the keys that trigger either.
 */
module TagInput {
  import opened Options
  import opened Sequences

  /** The characters `String.prototype.trim` removes: white space and line terminators. */
  predicate IsJsWhitespace(c: char)
  {
    c == ' ' || c == '\t' || c == '\n' || c == '\r' || c == '\U{000B}' || c == '\U{000C}'
    || c == '\U{00A0}' || c == '\U{1680}' || ('\U{2000}' <= c <= '\U{200A}')
    || c == '\U{2028}' || c == '\U{2029}' || c == '\U{202F}' || c == '\U{205F}'
    || c == '\U{3000}' || c == '\U{FEFF}'
  }

  function TrimStart(s: string): (r: string)
    ensures |r| <= |s| && r == s[|s| - |r|..]
    ensures r == [] || !IsJsWhitespace(r[0])
    ensures forall i :: 0 <= i < |s| - |r| ==> IsJsWhitespace(s[i])
  {
    if s != [] && IsJsWhitespace(s[0]) then TrimStart(s[1..]) else s
  }

  function TrimEnd(s: string): (r: string)
    ensures |r| <= |s| && r == s[..|r|]
    ensures r == [] || !IsJsWhitespace(r[|r| - 1])
    ensures forall i :: |r| <= i < |s| ==> IsJsWhitespace(s[i])
  {
    if s != [] && IsJsWhitespace(s[|s| - 1]) then TrimEnd(s[..|s| - 1]) else s
  }

  /** `trim()`: the string without its leading and trailing white space. */
  function Trim(s: string): (r: string)
    ensures r == [] || (!IsJsWhitespace(r[0]) && !IsJsWhitespace(r[|r| - 1]))
    ensures r == [] <==> forall i :: 0 <= i < |s| ==> IsJsWhitespace(s[i])
    ensures exists a, b :: (0 <= a <= b <= |s| && r == s[a..b]
                            && (forall i :: 0 <= i < a ==> IsJsWhitespace(s[i]))
                            && (forall i :: b <= i < |s| ==> IsJsWhitespace(s[i])))
  {
    TrimEdges(s);
    var a := TrimStart(s);
    TrimIsSlice(s, a, TrimEnd(a));
    TrimEnd(a)
  }

  /** Trimming leaves no white space at either end, and leaves nothing only from all white space. */
  lemma TrimEdges(s: string)
    ensures var r := TrimEnd(TrimStart(s)); r == [] || (!IsJsWhitespace(r[0]) && !IsJsWhitespace(r[|r| - 1]))
    ensures TrimEnd(TrimStart(s)) == [] <==> forall i :: 0 <= i < |s| ==> IsJsWhitespace(s[i])
  {
    var a := TrimStart(s);
    var r := TrimEnd(a);
    if a != [] {
      assert r != [] && r[0] == a[0];
      assert s[|s| - |a|] == a[0];
    }
  }

  /**
   * A prefix `r` of a suffix `a` of `s`, with only white space cut on either
   * side, is one slice of `s` with only white space around it.
   */
  lemma TrimIsSlice(s: string, a: string, r: string)
    requires |a| <= |s| && a == s[|s| - |a|..]
    requires forall i :: 0 <= i < |s| - |a| ==> IsJsWhitespace(s[i])
    requires |r| <= |a| && r == a[..|r|]
    requires forall i :: |r| <= i < |a| ==> IsJsWhitespace(a[i])
    ensures exists lo, hi :: (0 <= lo <= hi <= |s| && r == s[lo..hi]
                              && (forall i :: 0 <= i < lo ==> IsJsWhitespace(s[i]))
                              && (forall i :: hi <= i < |s| ==> IsJsWhitespace(s[i])))
  {
    var lo := |s| - |a|;
    assert r == s[lo..lo + |r|];
    forall i | lo + |r| <= i < |s| ensures IsJsWhitespace(s[i]) {
      assert s[i] == a[i - lo];
    }
  }

  /** Trimming a trimmed string changes nothing. */
  lemma TrimIdempotent(s: string)
    ensures Trim(Trim(s)) == Trim(s)
  {
    var r := Trim(s);
    assert TrimStart(r) == r;
    assert TrimEnd(r) == r;
  }

  /**
   * `addTag`: `None` when the list is left alone (a blank input, a tag
   * already present, or a truthy `maxTags` already reached), otherwise the
   * list with the trimmed tag appended. `maxTags` absent or 0 means no limit.
   */
  function AddTag(value: seq<string>, tag: string, maxTags: Option<int>): (r: Option<seq<string>>)
    ensures Trim(tag) == "" ==> r.None?
    ensures Trim(tag) in value ==> r.None?
    ensures maxTags.Some? && maxTags.value != 0 && |value| >= maxTags.value ==> r.None?
    ensures r.None? ==> Trim(tag) == "" || Trim(tag) in value || (maxTags.Some? && maxTags.value != 0 && |value| >= maxTags.value)
    ensures r.Some? ==> r.value == value + [Trim(tag)]
  {
    var trimmed := Trim(tag);
    if trimmed == "" then None
    else if trimmed in value then None
    else if maxTags.Some? && maxTags.value != 0 && |value| >= maxTags.value then None
    else Some(value + [trimmed])
  }

  /** Adding keeps the tags distinct and, under a positive limit, within the limit. */
  lemma AddTagKeepsInvariant(value: seq<string>, tag: string, maxTags: Option<int>)
    requires AddTag(value, tag, maxTags).Some?
    ensures Distinct(value) ==> Distinct(AddTag(value, tag, maxTags).value)
    ensures maxTags.Some? && maxTags.value > 0 && |value| <= maxTags.value ==>
      |AddTag(value, tag, maxTags).value| <= maxTags.value
  {
    var r := AddTag(value, tag, maxTags).value;
    if Distinct(value) {
      forall i, j | 0 <= i < j < |r| ensures r[i] != r[j] {
        if j == |value| {
          assert r[i] == value[i];
        }
      }
    }
  }

  /**
   * The tag input: the tag list it reports through `onChange` (held here as
   * if the parent always passes it back), and the text being typed.
   */
  class TagBox {
    var value: seq<string>
    var inputValue: string
    const maxTags: Option<int>

    /**
     * The tags are distinct and, under a positive limit, within it. The
     * component does not check this of the list it is given; its operations
     * keep it once it holds.
     */
    ghost predicate Valid()
      reads this
    {
      Distinct(value) && (maxTags.Some? && maxTags.value > 0 ==> |value| <= maxTags.value)
    }

    constructor(initial: seq<string>, limit: Option<int>)
      ensures value == initial && inputValue == "" && maxTags == limit
    {
      value := initial;
      inputValue := "";
      maxTags := limit;
    }

    /** `addTag`: on acceptance the new list is reported and the input cleared; otherwise nothing changes. */
    method AddTagFrom(tag: string)
      modifies this
      ensures old(Valid()) ==> Valid()
      ensures AddTag(old(value), tag, maxTags).None? ==> value == old(value) && inputValue == old(inputValue)
      ensures AddTag(old(value), tag, maxTags).Some? ==>
        value == AddTag(old(value), tag, maxTags).value && inputValue == ""
    {
      var next := AddTag(value, tag, maxTags);
      if next.Some? {
        AddTagKeepsInvariant(value, tag, maxTags);
        value := next.value;
        inputValue := "";
      }
    }

    /** `removeTag`. */
    method RemoveTagAt(index: int)
      modifies this
      ensures old(Valid()) ==> Valid()
      ensures value == RemoveAt(old(value), index) && inputValue == old(inputValue)
    {
      if Distinct(value) {
        RemoveAtKeepsDistinct(value, index);
      }
      value := RemoveAt(value, index);
    }

    /** `handleBlur`: leaving the input adds what was typed unless it is blank. */
    method HandleBlur()
      modifies this
      ensures old(Valid()) ==> Valid()
      ensures Trim(old(inputValue)) == "" ==> value == old(value) && inputValue == old(inputValue)
      ensures AddTag(old(value), old(inputValue), maxTags).Some? ==>
        value == AddTag(old(value), old(inputValue), maxTags).value && inputValue == ""
      ensures AddTag(old(value), old(inputValue), maxTags).None? ==> value == old(value) && inputValue == old(inputValue)
    {
      if Trim(inputValue) != "" {
        AddTagFrom(inputValue);
      }
    }

    /**
     * `handleKeyDown`: Enter or `,` adds what was typed; Backspace on an empty
     * input removes the last tag, if there is one; any other key does nothing.
     */
    method HandleKeyDown(key: string)
      modifies this
      ensures old(Valid()) ==> Valid()
      ensures (key == "Enter" || key == ",") ==>
        (var next := AddTag(old(value), old(inputValue), maxTags);
         if next.Some? then value == next.value && inputValue == ""
         else value == old(value) && inputValue == old(inputValue))
      ensures key == "Backspace" && old(inputValue) == "" && |old(value)| > 0 ==>
        value == old(value)[..|old(value)| - 1] && inputValue == ""
      ensures !(key == "Enter" || key == ",") && !(key == "Backspace" && old(inputValue) == "" && |old(value)| > 0) ==>
        value == old(value) && inputValue == old(inputValue)
    {
      if key == "Enter" || key == "," {
        AddTagFrom(inputValue);
      } else if key == "Backspace" && inputValue == "" && |value| > 0 {
        RemoveTagAt(|value| - 1);
        assert RemoveAt(old(value), |old(value)| - 1) == old(value)[..|old(value)| - 1];
      }
    }
  }
}
