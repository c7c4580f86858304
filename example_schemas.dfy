/**
 * The template catalog: the six categories with their display texts, and
 * the lookups over a list of templates by category, by identifier and by
 * free text. A template's field list plays no part in any lookup and is not
 * carried.
 */
module ExampleSchemas {
  import opened Options
  import opened Text
  import opened Sequences

  datatype SchemaCategory = Ai | Sales | Hr | Finance | Customer | Nonprofit

  /** A template's catalog entry. */
  datatype ExampleSchema = ExampleSchema(
    id: string,
    name: string,
    description: string,
    category: SchemaCategory,
    tags: seq<string>)

  /** `categoryLabels`. */
  function CategoryLabel(c: SchemaCategory): (r: string)
    ensures r != ""
  {
    match c
    case Ai => "AI Assistant Context"
    case Sales => "Sales & Partnerships"
    case Hr => "HR & Recruiting"
    case Finance => "Finance & Compliance"
    case Customer => "Customer Success"
    case Nonprofit => "Nonprofit"
  }

  /** `categoryDescriptions`. */
  function CategoryDescription(c: SchemaCategory): (r: string)
    ensures r != ""
  {
    match c
    case Ai => "Context packs for AI assistants and RAG systems"
    case Sales => "Qualify leads and assess vendors"
    case Hr => "Streamline hiring and onboarding"
    case Finance => "KYC verification and due diligence"
    case Customer => "Customer intake and onboarding"
    case Nonprofit => "Grant applications and donor management"
  }

  /** Every category has its own label and its own description. */
  lemma CategoryTextsDistinct(c: SchemaCategory, d: SchemaCategory)
    requires c != d
    ensures CategoryLabel(c) != CategoryLabel(d)
    ensures CategoryDescription(c) != CategoryDescription(d)
  {
  }

  /** The identifiers of a list of templates, in order. */
  function IdsOf(schemas: seq<ExampleSchema>): (r: seq<string>)
    ensures |r| == |schemas|
    ensures forall i :: 0 <= i < |schemas| ==> r[i] == schemas[i].id
  {
    seq(|schemas|, i requires 0 <= i < |schemas| => schemas[i].id)
  }

  /** `getSchemasByCategory`: the templates of category `c`, all of them, in catalog order. */
  function SchemasByCategory(schemas: seq<ExampleSchema>, c: SchemaCategory): (r: seq<ExampleSchema>)
    ensures IsSubsequence(r, schemas)
    ensures forall i :: 0 <= i < |r| ==> r[i].category == c
    ensures forall i :: 0 <= i < |schemas| && schemas[i].category == c ==> schemas[i] in r
  {
    Filter(schemas, (s: ExampleSchema) => s.category == c)
  }

  /** A template of category `c` is listed as often as it occurs in the list; any other, never. */
  lemma SchemasByCategoryCounts(schemas: seq<ExampleSchema>, c: SchemaCategory)
    ensures forall x :: multiset(SchemasByCategory(schemas, c))[x] == if x.category == c then multiset(schemas)[x] else 0
  {
    FilterCounts(schemas, (s: ExampleSchema) => s.category == c);
  }

  /** Every template lies in exactly one category, so the six lists together are as long as the list. */
  lemma {:induction false} CategoriesPartition(schemas: seq<ExampleSchema>)
    ensures |SchemasByCategory(schemas, Ai)| + |SchemasByCategory(schemas, Sales)| + |SchemasByCategory(schemas, Hr)|
          + |SchemasByCategory(schemas, Finance)| + |SchemasByCategory(schemas, Customer)|
          + |SchemasByCategory(schemas, Nonprofit)| == |schemas|
    decreases |schemas|
  {
    if schemas != [] {
      CategoriesPartition(schemas[1..]);
    }
  }

  /** `getSchemaById`: the first template with identifier `id`, or nothing when none has it. */
  function SchemaById(schemas: seq<ExampleSchema>, id: string): (r: Option<ExampleSchema>)
    ensures r.None? <==> forall i :: 0 <= i < |schemas| ==> schemas[i].id != id
    ensures r.Some? ==> exists i :: 0 <= i < |schemas| && schemas[i] == r.value && r.value.id == id
                                    && forall j :: 0 <= j < i ==> schemas[j].id != id
  {
    if schemas == [] then None
    else if schemas[0].id == id then Some(schemas[0])
    else
      var r := SchemaById(schemas[1..], id);
      assert forall i :: 1 <= i < |schemas| ==> schemas[i] == schemas[1..][i - 1];
      r
  }

  /** With distinct identifiers, a template is found by its own identifier. */
  lemma {:induction false} SchemaByIdFindsEach(schemas: seq<ExampleSchema>, k: nat)
    requires Distinct(IdsOf(schemas)) && k < |schemas|
    ensures SchemaById(schemas, schemas[k].id) == Some(schemas[k])
  {
    var r := SchemaById(schemas, schemas[k].id);
    var i :| 0 <= i < |schemas| && schemas[i] == r.value && r.value.id == schemas[k].id
             && forall j :: 0 <= j < i ==> schemas[j].id != schemas[k].id;
    assert IdsOf(schemas)[i] == IdsOf(schemas)[k];
  }

  /**
   * Whether a template matches an already lower-cased query: its lower-cased
   * name or description contains it, or one of its tags, taken as written,
   * contains it.
   */
  predicate MatchesQuery(s: ExampleSchema, lowerQuery: string)
  {
    Contains(Lower(s.name), lowerQuery)
    || Contains(Lower(s.description), lowerQuery)
    || exists k :: 0 <= k < |s.tags| && Contains(s.tags[k], lowerQuery)
  }

  /** `searchSchemas`: the matching templates, all of them, in catalog order. */
  function SearchSchemas(schemas: seq<ExampleSchema>, query: string): (r: seq<ExampleSchema>)
    ensures IsSubsequence(r, schemas)
    ensures forall i :: 0 <= i < |r| ==> MatchesQuery(r[i], Lower(query))
    ensures forall i :: 0 <= i < |schemas| && MatchesQuery(schemas[i], Lower(query)) ==> schemas[i] in r
  {
    var lowerQuery := Lower(query);
    Filter(schemas, (s: ExampleSchema) => MatchesQuery(s, lowerQuery))
  }

  /** A matching template is listed as often as it occurs in the list; any other, never. */
  lemma SearchSchemasCounts(schemas: seq<ExampleSchema>, query: string)
    ensures forall x :: multiset(SearchSchemas(schemas, query))[x]
                        == (if MatchesQuery(x, Lower(query)) then multiset(schemas)[x] else 0)
  {
    FilterCounts(schemas, (s: ExampleSchema) => MatchesQuery(s, Lower(query)));
  }

  /** An empty query returns the whole list. */
  lemma SearchEmptyReturnsAll(schemas: seq<ExampleSchema>)
    ensures SearchSchemas(schemas, "") == schemas
  {
    forall i | 0 <= i < |schemas| ensures MatchesQuery(schemas[i], Lower("")) {
      ContainsEmpty(Lower(schemas[i].name));
    }
    FilterKeepsAll(schemas, (s: ExampleSchema) => MatchesQuery(s, Lower("")));
  }

  /**
   * Tags are not lower-cased: a template whose only match would be a tag
   * written in capitals is not found by the same capitals.
   */
  lemma CapitalTagNotFound(s: ExampleSchema)
    requires s.tags == ["KYC"]
    requires !Contains(Lower(s.name), "kyc") && !Contains(Lower(s.description), "kyc")
    ensures SearchSchemas([s], "KYC") == []
  {
    assert Lower("KYC") == "kyc";
    assert !Contains("KYC", "kyc") by {
      forall i: nat | i <= 0 ensures !OccursAt("KYC", "kyc", i) {
        assert "KYC"[0] != "kyc"[0];
      }
    }
    assert !MatchesQuery(s, "kyc");
  }
}
