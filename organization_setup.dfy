/** The URL slug previewed while an organization is set up. */
module OrganizationSetup {
  import opened Text

  /**
   * `generateSlug`: lower-case, turn every run of characters outside
   * `[a-z0-9]` into one `-`, squeeze runs of `-`, drop a leading and a
   * trailing `-`.
   */
  function GenerateSlug(name: string): string
  {
    StripEdge(CollapseRepeats(CollapseNonAlnum(Lower(name), '-'), '-'), '-')
  }

  /** Runs of `-` are already single after the first replacement, so the second changes nothing. */
  lemma SqueezeIsRedundant(name: string)
    ensures var c := CollapseNonAlnum(Lower(name), '-');
      CollapseRepeats(c, '-') == c && AlnumOr(c, '-') && NoDoubled(c, '-')
  {
    var c := CollapseNonAlnum(Lower(name), '-');
    CollapseShape(Lower(name), '-');
    CollapseRepeatsFixpoint(c, '-');
  }

  /** A slug holds only `[a-z0-9-]`, never `--`, and neither starts nor ends with `-`. */
  lemma SlugShape(name: string)
    ensures var s := GenerateSlug(name);
      && AlnumOr(s, '-') && NoDoubled(s, '-')
      && (s == [] || (s[0] != '-' && s[|s| - 1] != '-'))
  {
    SqueezeIsRedundant(name);
    StrippedShape(CollapseNonAlnum(Lower(name), '-'), '-');
  }

  /** A slug is its own slug. */
  lemma SlugIdempotent(name: string)
    ensures GenerateSlug(GenerateSlug(name)) == GenerateSlug(name)
  {
    var s := GenerateSlug(name);
    SlugShape(name);
    LowerOfLower(s);
    CollapseFixpoint(s, '-');
    CollapseRepeatsFixpoint(s, '-');
  }

  /** The `[a-z0-9]` characters of the lower-cased name survive, unchanged and in order. */
  lemma SlugKeepsAlnum(name: string)
    ensures AlnumChars(GenerateSlug(name)) == AlnumChars(Lower(name))
  {
    SqueezeIsRedundant(name);
    CollapseKeepsAlnum(Lower(name), '-');
    StripEdgeKeepsAlnum(CollapseNonAlnum(Lower(name), '-'), '-');
  }
}
