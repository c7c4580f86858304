/**
 * Key derivation of the schema builder: the key generated from a label, the
 * default labels of new fields, and the two counter searches that pick a key
 * no field uses yet (one for new fields, one for copies).
 */
module SchemaKeys {
  import opened Options
  import opened Text
  import opened Sequences
  import opened SchemaTypes

  /** Keys are cut to this many characters. */
  const MaxKeyLength: nat := 100

  /** The largest length of a JavaScript array, 2^32 - 1. */
  const MaxArrayLength: nat := 4294967295

  /**
   * `generateKey`: lower-case the label, turn every run of characters outside
   * `[a-z0-9]` into one `_`, drop a leading and a trailing `_`, keep at most
   * 100 characters.
   */
  function GenerateKey(labelText: string): string
  {
    Take(StripEdge(CollapseNonAlnum(Lower(labelText), '_'), '_'), MaxKeyLength)
  }

  /**
   * A generated key holds only `[a-z0-9_]`, never `__`, never starts with `_`,
   * and ends with `_` only when it was cut at 100 characters.
   */
  lemma GenerateKeyShape(labelText: string)
    ensures var k := GenerateKey(labelText);
      && |k| <= MaxKeyLength
      && AlnumOr(k, '_')
      && NoDoubled(k, '_')
      && (|k| > 0 ==> k[0] != '_')
      && (0 < |k| < MaxKeyLength ==> k[|k| - 1] != '_')
  {
    var c := CollapseNonAlnum(Lower(labelText), '_');
    CollapseShape(Lower(labelText), '_');
    var st := StripEdge(c, '_');
    StrippedShape(c, '_');
    var n := if |st| <= MaxKeyLength then |st| else MaxKeyLength;
    NoDoubledSlice(st, '_', 0, n);
    assert GenerateKey(labelText) == st[0..n];
  }

  /** A key that does not end in `_`, in particular one shorter than 100 characters, is its own key. */
  lemma GenerateKeyIdempotent(labelText: string)
    requires var k := GenerateKey(labelText); k == [] || k[|k| - 1] != '_'
    ensures GenerateKey(GenerateKey(labelText)) == GenerateKey(labelText)
  {
    var k := GenerateKey(labelText);
    GenerateKeyShape(labelText);
    LowerOfLower(k);
    CollapseFixpoint(k, '_');
  }

  /** Every key shorter than 100 characters is its own key. */
  lemma ShortKeyIdempotent(labelText: string)
    requires |GenerateKey(labelText)| < MaxKeyLength
    ensures GenerateKey(GenerateKey(labelText)) == GenerateKey(labelText)
  {
    GenerateKeyShape(labelText);
    GenerateKeyIdempotent(labelText);
  }

  /** `getDefaultLabel`. */
  function DefaultLabel(t: FieldType): (r: string)
    ensures 0 < |r| <= 16 && r[0] == 'N' && r[|r| - 1] == 'd'
  {
    match t
    case Text => "New Text Field"
    case Number => "New Number Field"
    case Boolean => "New Yes/No Field"
    case Enum => "New Choice Field"
    case TextList => "New List Field"
  }

  /** Each field type has its own default label. */
  lemma DefaultLabelsDistinct(t: FieldType, u: FieldType)
    requires DefaultLabel(t) == DefaultLabel(u)
    ensures t == u
  {
    var a, b := DefaultLabel(t), DefaultLabel(u);
    assert a[4] == b[4] && |a| == |b|;
  }

  /** The key of the bare default label. */
  function BaseKey(t: FieldType): string
  {
    GenerateKey(DefaultLabel(t))
  }

  /** The label tried with counter `n`: the default label, then `"<default> <n>"` from 2 on. */
  function CandidateLabel(t: FieldType, n: nat): string
  {
    if n <= 1 then DefaultLabel(t) else DefaultLabel(t) + " " + NatToString(n)
  }

  function CandidateKey(t: FieldType, n: nat): string
  {
    GenerateKey(CandidateLabel(t, n))
  }

  /**
   * A label that starts and ends with a letter or digit and is at most 100
   * characters long keys to its collapsed lower case, which again starts and
   * ends with a letter or digit.
   */
  lemma PlainLabelKey(l: string)
    requires 0 < |l| <= MaxKeyLength
    requires IsAlnum(ToLowerChar(l[0])) && IsAlnum(ToLowerChar(l[|l| - 1]))
    ensures var b := GenerateKey(l);
      && b == CollapseNonAlnum(Lower(l), '_')
      && 0 < |b| <= |l| && IsAlnum(b[0]) && IsAlnum(b[|b| - 1])
  {
    var lw := Lower(l);
    assert IsAlnum(lw[0]) && IsAlnum(lw[|lw| - 1]);
    CollapseHead(lw, '_');
    CollapseLast(lw, '_');
  }

  /** The base key is the collapsed lower-case default label: short, and `[a-z0-9]` at both ends. */
  lemma BaseKeyShape(t: FieldType)
    ensures var b := BaseKey(t);
      && b == CollapseNonAlnum(Lower(DefaultLabel(t)), '_')
      && 0 < |b| <= 16 && IsAlnum(b[0]) && IsAlnum(b[|b| - 1])
  {
    PlainLabelKey(DefaultLabel(t));
  }

  lemma Pow10Ten()
    ensures Pow10(10) == 10000000000
  {
    assert Pow10(5) == 100000;
  }

  /** A counter up to `MaxArrayLength + 1` has at most ten digits. */
  lemma CounterDigits(n: nat)
    requires n <= MaxArrayLength + 1
    ensures |NatToString(n)| <= 10
  {
    Pow10Ten();
    NatToStringShort(n, 10);
  }

  predicate AllDigits(d: string)
  {
    forall i :: 0 <= i < |d| ==> IsDigit(d[i])
  }

  /** Lower-casing leaves a space and digits as they are. */
  lemma LowerWithNumber(l: string, d: string)
    requires AllDigits(d)
    ensures Lower(l + " " + d) == Lower(l) + (" " + d)
  {
    LowerConcat(l, " " + d);
    LowerConcat(" ", d);
    LowerOfLower(d);
    assert l + " " + d == l + (" " + d);
  }

  /** A space followed by digits collapses to `_` followed by the same digits. */
  lemma CollapseWithNumber(lw: string, d: string)
    requires lw != [] && IsAlnum(lw[|lw| - 1])
    requires 0 < |d| && AllDigits(d)
    ensures CollapseNonAlnum(lw + (" " + d), '_') == CollapseNonAlnum(lw, '_') + ("_" + d)
  {
    var tail := " " + d;
    CollapseConcat(lw, tail, '_');
    assert IsAlnum(d[0]);
    assert DropNonAlnum(d) == d;
    assert CollapseNonAlnum(tail, '_') == "_" + CollapseNonAlnum(d, '_') by {
      CollapseStep(tail, '_');
      assert tail[1..] == d;
    }
    assert AlnumOr(d, '_');
    assert NoDoubled(d, '_');
    CollapseFixpoint(d, '_');
  }

  /**
   * Appending a space and a run of digits to such a label appends `_` and the
   * digits to its key, as long as nothing is cut.
   */
  lemma LabelWithNumberKey(l: string, d: string)
    requires 0 < |l| && |l| + 1 + |d| <= MaxKeyLength
    requires IsAlnum(ToLowerChar(l[0])) && IsAlnum(ToLowerChar(l[|l| - 1]))
    requires 0 < |d| && AllDigits(d)
    ensures GenerateKey(l + " " + d) == GenerateKey(l) + "_" + d
  {
    PlainLabelKey(l);
    LabelWithNumberCollapsed(l, d);
    var whole := GenerateKey(l) + "_" + d;
    assert whole[|whole| - 1] == d[|d| - 1];
    KeyOfCollapsed(l + " " + d, whole);
  }

  lemma LabelWithNumberCollapsed(l: string, d: string)
    requires 0 < |l| && IsAlnum(ToLowerChar(l[|l| - 1]))
    requires 0 < |d| && AllDigits(d)
    ensures CollapseNonAlnum(Lower(l + " " + d), '_') == CollapseNonAlnum(Lower(l), '_') + "_" + d
  {
    var lw := Lower(l);
    LowerWithNumber(l, d);
    assert IsAlnum(lw[|lw| - 1]);
    CollapseWithNumber(lw, d);
    var c := CollapseNonAlnum(lw, '_');
    assert c + ("_" + d) == c + "_" + d;
  }

  /** When the collapsed lower case has no `_` at its ends and fits, it is the key. */
  lemma KeyOfCollapsed(l: string, whole: string)
    requires CollapseNonAlnum(Lower(l), '_') == whole
    requires 0 < |whole| <= MaxKeyLength && whole[0] != '_' && whole[|whole| - 1] != '_'
    ensures GenerateKey(l) == whole
  {
    assert StripEdge(whole, '_') == whole;
  }

  /** The key for counter `n >= 2` is the base key, `_`, and the counter's digits. */
  lemma CandidateKeyForm(t: FieldType, n: nat)
    requires 2 <= n <= MaxArrayLength + 1
    ensures CandidateKey(t, n) == BaseKey(t) + "_" + NatToString(n)
  {
    CounterDigits(n);
    LabelWithNumberKey(DefaultLabel(t), NatToString(n));
  }

  /** Distinct counters give distinct keys. */
  lemma CandidateKeyInjective(t: FieldType, m: nat, n: nat)
    requires 1 <= m <= MaxArrayLength + 1 && 1 <= n <= MaxArrayLength + 1
    requires CandidateKey(t, m) == CandidateKey(t, n)
    ensures m == n
  {
    var b := BaseKey(t);
    if m >= 2 && n >= 2 {
      CandidateKeyForm(t, m);
      CandidateKeyForm(t, n);
      var km, kn := b + "_" + NatToString(m), b + "_" + NatToString(n);
      assert km[|b| + 1..] == NatToString(m);
      assert kn[|b| + 1..] == NatToString(n);
      NatToStringInjective(m, n);
    } else if m >= 2 {
      CandidateKeyForm(t, m);
    } else if n >= 2 {
      CandidateKeyForm(t, n);
    }
  }

  /** The keys tried with counters `1..c`. */
  function Candidates(t: FieldType, c: nat): (r: seq<string>)
    ensures |r| == c && forall i :: 0 <= i < c ==> r[i] == CandidateKey(t, i + 1)
  {
    seq(c, i requires 0 <= i < c => CandidateKey(t, i + 1))
  }

  /** The keys tried with counters `1..c` are pairwise different. */
  lemma CandidatesDistinct(t: FieldType, c: nat)
    requires c <= MaxArrayLength + 1
    ensures Distinct(Candidates(t, c))
  {
    var cands := Candidates(t, c);
    forall i, j | 0 <= i < j < c ensures cands[i] != cands[j] {
      if cands[i] == cands[j] {
        CandidateKeyInjective(t, i + 1, j + 1);
      }
    }
  }

  /** If the keys of counters `1..c` are all taken, there are at least `c` existing keys. */
  lemma CandidatesBound(t: FieldType, keys: seq<string>, c: nat)
    requires c <= MaxArrayLength + 1
    requires forall j :: 1 <= j <= c ==> CandidateKey(t, j) in keys
    ensures c <= |keys|
  {
    var cands := Candidates(t, c);
    CandidatesDistinct(t, c);
    assert forall i :: 0 <= i < c ==> cands[i] in keys;
    Pigeonhole(cands, keys);
  }

  /**
   * The counter the search settles on, starting from `c`: the first counter
   * from `c` on whose key is not taken. It exists within `|keys| + 1` steps.
   */
  function FreshCounter(t: FieldType, keys: seq<string>, c: nat): (r: nat)
    requires |keys| <= MaxArrayLength
    requires 1 <= c <= |keys| + 1
    requires forall j :: 1 <= j < c ==> CandidateKey(t, j) in keys
    ensures c <= r <= |keys| + 1
    ensures CandidateKey(t, r) !in keys
    ensures forall j :: 1 <= j < r ==> CandidateKey(t, j) in keys
    decreases |keys| + 1 - c
  {
    if CandidateKey(t, c) !in keys then c
    else
      CandidatesBound(t, keys, c);
      FreshCounter(t, keys, c + 1)
  }

  /** The options every new choice field starts with. */
  function DefaultEnumOptions(t: FieldType): (r: Option<seq<string>>)
    ensures r.Some? <==> t == Enum
    ensures r.Some? ==> r.value == ["Option 1", "Option 2"]
  {
    if t == Enum then Some(["Option 1", "Option 2"]) else None
  }

  /**
   * `createField`: a field of type `t` named after the first counter whose key
   * is not among `keys`; not required, no instructions, and the two default
   * options exactly when it is a choice field.
   */
  function NewField(t: FieldType, keys: seq<string>): (f: FieldDefinition)
    requires |keys| <= MaxArrayLength
    ensures f.key !in keys
    ensures f.key == GenerateKey(f.labelText)
    ensures exists n :: 1 <= n <= |keys| + 1 && f.labelText == CandidateLabel(t, n)
                     && forall j :: 1 <= j < n ==> CandidateKey(t, j) in keys
    ensures f.fieldType == t && !f.required && f.instructions == ""
    ensures f.enumOptions == (if t == Enum then Some(["Option 1", "Option 2"]) else None)
    ensures f.validation == None && f.confidenceThreshold == None && f.sourceHints == None
  {
    var n := FreshCounter(t, keys, 1);
    FieldDefinition(CandidateKey(t, n), CandidateLabel(t, n), t, false, "", DefaultEnumOptions(t), None, None, None)
  }

  /**
   * The labelText of a new field is the default labelText or the default labelText
   * followed by a space and a counter of at least 2, and its key is the base
   * key or the base key followed by `_` and that counter.
   */
  lemma NewFieldForm(t: FieldType, keys: seq<string>)
    requires |keys| <= MaxArrayLength
    ensures var f := NewField(t, keys);
      || (f.labelText == DefaultLabel(t) && f.key == BaseKey(t))
      || exists n: nat :: 2 <= n && f.labelText == DefaultLabel(t) + " " + NatToString(n)
                       && f.key == BaseKey(t) + "_" + NatToString(n)
  {
    var n := FreshCounter(t, keys, 1);
    CounterForm(t, n);
  }

  /** The label and key for counter `n`, spelled out. */
  lemma CounterForm(t: FieldType, n: nat)
    requires 1 <= n <= MaxArrayLength + 1
    ensures n == 1 ==> CandidateLabel(t, n) == DefaultLabel(t) && CandidateKey(t, n) == BaseKey(t)
    ensures n >= 2 ==>
      CandidateLabel(t, n) == DefaultLabel(t) + " " + NatToString(n) && CandidateKey(t, n) == BaseKey(t) + "_" + NatToString(n)
  {
    if n >= 2 {
      CandidateKeyForm(t, n);
    }
  }

  /** The `createField` loop: counts up until the generated key is free. */
  method CreateField(fieldType: FieldType, existingKeys: seq<string>) returns (field: FieldDefinition)
    requires |existingKeys| <= MaxArrayLength
    ensures field == NewField(fieldType, existingKeys)
  {
    var baseLabel := DefaultLabel(fieldType);
    var labelText := baseLabel;
    var key := GenerateKey(labelText);
    var counter := 1;
    while key in existingKeys
      invariant 1 <= counter <= |existingKeys| + 1
      invariant labelText == CandidateLabel(fieldType, counter) && key == GenerateKey(labelText)
      invariant forall j :: 1 <= j < counter ==> CandidateKey(fieldType, j) in existingKeys
      invariant FreshCounter(fieldType, existingKeys, counter) == FreshCounter(fieldType, existingKeys, 1)
      decreases |existingKeys| + 1 - counter
    {
      CandidatesBound(fieldType, existingKeys, counter);
      counter := counter + 1;
      labelText := baseLabel + " " + NatToString(counter);
      key := GenerateKey(labelText);
    }
    var options := if fieldType == Enum then Some(["Option 1", "Option 2"]) else None;
    field := FieldDefinition(key, labelText, fieldType, false, "", options, None, None, None);
  }

  /** The key tried for a copy with counter `n`: `<key>_copy`, then `<key>_copy_<n>` from 2 on. */
  function CopyKey(k: string, n: nat): string
  {
    if n <= 1 then k + "_copy" else k + "_copy_" + NatToString(n)
  }

  /** Distinct counters give distinct copy keys. */
  lemma CopyKeyInjective(k: string, m: nat, n: nat)
    requires 1 <= m && 1 <= n
    requires CopyKey(k, m) == CopyKey(k, n)
    ensures m == n
  {
    var p := k + "_copy_";
    if m >= 2 && n >= 2 {
      assert CopyKey(k, m)[|p|..] == NatToString(m);
      assert CopyKey(k, n)[|p|..] == NatToString(n);
      NatToStringInjective(m, n);
    }
  }

  function CopyCandidates(k: string, c: nat): (r: seq<string>)
    ensures |r| == c && forall i :: 0 <= i < c ==> r[i] == CopyKey(k, i + 1)
  {
    seq(c, i requires 0 <= i < c => CopyKey(k, i + 1))
  }

  /** If the copy keys of counters `1..c` are all taken, there are at least `c` existing keys. */
  lemma CopyCandidatesBound(k: string, keys: seq<string>, c: nat)
    requires forall j :: 1 <= j <= c ==> CopyKey(k, j) in keys
    ensures c <= |keys|
  {
    var cands := CopyCandidates(k, c);
    forall i, j | 0 <= i < j < c ensures cands[i] != cands[j] {
      if cands[i] == cands[j] {
        CopyKeyInjective(k, i + 1, j + 1);
      }
    }
    forall i | 0 <= i < c ensures cands[i] in keys {
      assert cands[i] == CopyKey(k, i + 1);
    }
    Pigeonhole(cands, keys);
  }

  /** The first counter from `c` on whose copy key is not taken. */
  function FreshCopyCounter(k: string, keys: seq<string>, c: nat): (r: nat)
    requires 1 <= c <= |keys| + 1
    requires forall j :: 1 <= j < c ==> CopyKey(k, j) in keys
    ensures c <= r <= |keys| + 1
    ensures CopyKey(k, r) !in keys
    ensures forall j :: 1 <= j < r ==> CopyKey(k, j) in keys
    decreases |keys| + 1 - c
  {
    if CopyKey(k, c) !in keys then c
    else
      CopyCandidatesBound(k, keys, c);
      FreshCopyCounter(k, keys, c + 1)
  }

  /**
   * The key the duplicate operation gives a copy of a field keyed `k`: the
   * first of `k_copy`, `k_copy_2`, `k_copy_3`, ... that no field uses.
   */
  function UniqueCopyKey(k: string, keys: seq<string>): (r: string)
    ensures r !in keys
    ensures exists n :: 1 <= n <= |keys| + 1 && r == CopyKey(k, n)
                     && forall j :: 1 <= j < n ==> CopyKey(k, j) in keys
  {
    CopyKey(k, FreshCopyCounter(k, keys, 1))
  }

  /** The copy-key loop of `duplicateField` and of the reducer's `DUPLICATE_FIELD`. */
  method FindCopyKey(k: string, existingKeys: seq<string>) returns (newKey: string)
    ensures newKey == UniqueCopyKey(k, existingKeys)
  {
    newKey := k + "_copy";
    var counter := 1;
    while newKey in existingKeys
      invariant 1 <= counter <= |existingKeys| + 1
      invariant newKey == CopyKey(k, counter)
      invariant forall j :: 1 <= j < counter ==> CopyKey(k, j) in existingKeys
      invariant FreshCopyCounter(k, existingKeys, counter) == FreshCopyCounter(k, existingKeys, 1)
      decreases |existingKeys| + 1 - counter
    {
      CopyCandidatesBound(k, existingKeys, counter);
      counter := counter + 1;
      newKey := k + "_copy_" + NatToString(counter);
    }
  }
}
