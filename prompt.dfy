/** The prompt the recipe handler sends to the text-generation service. */
module RecipePrompt {
  import opened Text

  /** The fields of one form submission: the repeated `ingredient` field in
      the order submitted, the `cuisine` field, the repeated `restrictions`
      field in the order submitted, and the `language` field. */
  datatype Request = Request(
    ingredients: seq<string>,
    cuisine: string,
    restrictions: seq<string>,
    language: string)

  /** The cuisine choices offered by the form; the first one, the empty
      string, stands for "no particular cuisine". */
  const Cuisines: seq<string> := [
    "", "Italian", "Mexican", "Indian", "Chinese", "Japanese",
    "French", "Mediterranean", "American", "Thai", "Greek"]

  /** The literal pieces of the base prompt around its two placeholders.
      Each source line of the literal ends in a backslash-newline, which
      Python drops, while the four spaces that indent the next line stay. */
  const Intro := "Craft a recipe in HTML in "
  const AfterLanguage := " using     "
  const Tail := ". It's okay to use some other necessary "
    + "    ingredients. Ensure the recipe ingredients appear at the top, "
    + "    followed by the step-by-step instructions."

  const CuisineLead := "The cuisine should be "
  /** Written as two literals: the short first one lets the verifier read
      the characters that tell this clause apart from the cuisine clause. */
  const RestrictionsLead := "The recipe" + " should have the following restrictions: "

  /** The fixed instruction with the language and the ingredients joined
      by ", ". */
  function BasePrompt(language: string, ingredients: seq<string>): (r: string)
    ensures OccursAt(r, language, |Intro|)
    ensures OccursAt(r, Join(ingredients, ", "), |Intro| + |language| + |AfterLanguage|)
  {
    FillOccurs(Intro, language, AfterLanguage, Join(ingredients, ", "), Tail);
    Intro + language + AfterLanguage + Join(ingredients, ", ") + Tail
  }

  /** Both placeholders of a five-part template occur where they are put. */
  lemma FillOccurs(a: string, x: string, b: string, y: string, c: string)
    ensures OccursAt(a + x + b + y + c, x, |a|)
    ensures OccursAt(a + x + b + y + c, y, |a| + |x| + |b|)
  {
    ConcatOccurs(a, x, b + y + c);
    assert a + x + b + y + c == a + x + (b + y + c);
    ConcatOccurs(a + x + b, y, c);
  }

  /** The clause appended for a chosen cuisine. */
  function CuisineClause(cuisine: string): (r: string)
    ensures |r| == |CuisineLead| + |cuisine| + 1 && r[|r| - 1] == '.'
  {
    CuisineLead + cuisine + "."
  }

  /** The clause appended for selected restrictions, joined by ",". */
  function RestrictionsClause(restrictions: seq<string>): (r: string)
    ensures |r| == |RestrictionsLead| + |Join(restrictions, ",")| + 1 && r[|r| - 1] == '.'
  {
    RestrictionsLead + Join(restrictions, ",") + "."
  }

  /** What the cuisine adds to the prompt: nothing when it is empty. */
  function CuisinePart(cuisine: string): (r: string)
    ensures r == "" <==> cuisine == ""
  {
    if cuisine != "" then CuisineClause(cuisine) else ""
  }

  /** What the restrictions add to the prompt: nothing when there are none. */
  function RestrictionsPart(restrictions: seq<string>): (r: string)
    ensures r == "" <==> restrictions == []
  {
    if |restrictions| > 0 then RestrictionsClause(restrictions) else ""
  }

  /** The whole prompt of a request, clauses appended without separators. */
  function FullPrompt(req: Request): (r: string)
    ensures |r| == |BasePrompt(req.language, req.ingredients)|
      + |CuisinePart(req.cuisine)| + |RestrictionsPart(req.restrictions)|
  {
    BasePrompt(req.language, req.ingredients)
      + CuisinePart(req.cuisine) + RestrictionsPart(req.restrictions)
  }

  /** The prompt starts with the base instruction. */
  lemma PromptStartsWithBase(req: Request)
    ensures OccursAt(FullPrompt(req), BasePrompt(req.language, req.ingredients), 0)
  {
    OccursPrefix(BasePrompt(req.language, req.ingredients),
                 CuisinePart(req.cuisine) + RestrictionsPart(req.restrictions));
  }

  /** The prompt names the requested language right after the first words. */
  lemma PromptNamesLanguage(req: Request)
    ensures OccursAt(FullPrompt(req), req.language, |Intro|)
  {
    PromptStartsWithBase(req);
    OccursWithin(FullPrompt(req), BasePrompt(req.language, req.ingredients), req.language, 0, |Intro|);
  }

  /** Three ingredients appear in the prompt in the order submitted,
      separated by ", ". */
  lemma PromptListsThreeIngredients(req: Request)
    requires |req.ingredients| == 3
    ensures OccursAt(FullPrompt(req),
      req.ingredients[0] + ", " + req.ingredients[1] + ", " + req.ingredients[2],
      |Intro| + |req.language| + |AfterLanguage|)
  {
    var xs := req.ingredients;
    assert xs[1..][1..] == [xs[2]];
    assert Join(xs, ", ") == xs[0] + ", " + xs[1] + ", " + xs[2];
    PromptStartsWithBase(req);
    OccursWithin(FullPrompt(req), BasePrompt(req.language, xs), Join(xs, ", "),
                 0, |Intro| + |req.language| + |AfterLanguage|);
  }

  /** Every submitted ingredient is a substring of the prompt. */
  lemma PromptMentionsIngredient(req: Request, i: nat)
    requires i < |req.ingredients|
    ensures Contains(FullPrompt(req), req.ingredients[i])
  {
    var xs := req.ingredients;
    var b := BasePrompt(req.language, xs);
    var k := |Intro| + |req.language| + |AfterLanguage|;
    var off := |Join(xs[..i], ", ")| + (if i == 0 then 0 else 2);
    JoinContains(xs, ", ", i);
    PromptStartsWithBase(req);
    OccursWithin(FullPrompt(req), b, Join(xs, ", "), 0, k);
    OccursWithin(FullPrompt(req), Join(xs, ", "), xs[i], k, off);
  }

  /** The text directly after the base instruction opens the cuisine clause
      if and only if a cuisine was chosen; when one was, the whole clause
      stands there. */
  lemma CuisineClauseIff(req: Request)
    ensures var p, n := FullPrompt(req), |BasePrompt(req.language, req.ingredients)|;
      OccursAt(p, CuisineLead, n) <==> req.cuisine != ""
    ensures req.cuisine != "" ==>
      OccursAt(FullPrompt(req), CuisineClause(req.cuisine),
               |BasePrompt(req.language, req.ingredients)|)
  {
    if req.cuisine != "" {
      CuisineClausePresent(req);
    } else {
      CuisineClauseAbsent(req);
    }
  }

  lemma CuisineClausePresent(req: Request)
    requires req.cuisine != ""
    ensures OccursAt(FullPrompt(req), CuisineClause(req.cuisine),
                     |BasePrompt(req.language, req.ingredients)|)
    ensures OccursAt(FullPrompt(req), CuisineLead, |BasePrompt(req.language, req.ingredients)|)
  {
    var b := BasePrompt(req.language, req.ingredients);
    var c := CuisineClause(req.cuisine);
    ConcatOccurs(b, c, RestrictionsPart(req.restrictions));
    OccursHead(CuisineLead, req.cuisine, ".");
    OccursStartOf(FullPrompt(req), c, CuisineLead, |b|);
  }

  lemma CuisineClauseAbsent(req: Request)
    requires req.cuisine == ""
    ensures !OccursAt(FullPrompt(req), CuisineLead, |BasePrompt(req.language, req.ingredients)|)
  {
    var b := BasePrompt(req.language, req.ingredients);
    var p := FullPrompt(req);
    var rp := RestrictionsPart(req.restrictions);
    assert p == b + rp;
    if rp != "" {
      assert rp == RestrictionsLead + Join(req.restrictions, ",") + ".";
      assert p[|b| + 4] == rp[4] == RestrictionsLead[4];
      assert RestrictionsLead[4] == 'r';
      assert CuisineLead[4] == 'c';
      OccursMismatch(p, CuisineLead, |b|, 4);
    }
  }

  /** The restrictions clause closes the prompt if and only if restrictions
      were selected: the prompt goes on after the base and the cuisine part
      exactly then, and what follows is the clause, so it also comes after
      any cuisine clause. */
  lemma RestrictionsClauseIff(req: Request)
    ensures var n := |BasePrompt(req.language, req.ingredients)| + |CuisinePart(req.cuisine)|;
      |FullPrompt(req)| > n <==> |req.restrictions| > 0
    ensures var n := |BasePrompt(req.language, req.ingredients)| + |CuisinePart(req.cuisine)|;
      |req.restrictions| > 0 ==> FullPrompt(req)[n..] == RestrictionsClause(req.restrictions)
  {
    var front := BasePrompt(req.language, req.ingredients) + CuisinePart(req.cuisine);
    assert FullPrompt(req) == front + RestrictionsPart(req.restrictions);
    assert (front + RestrictionsPart(req.restrictions))[|front|..] == RestrictionsPart(req.restrictions);
  }

  /** Every selected restriction is a substring of the prompt. */
  lemma PromptMentionsRestriction(req: Request, i: nat)
    requires i < |req.restrictions|
    ensures Contains(FullPrompt(req), req.restrictions[i])
  {
    var front := BasePrompt(req.language, req.ingredients) + CuisinePart(req.cuisine);
    var c := RestrictionsClause(req.restrictions);
    var k := RestrictionInClause(req.restrictions, i);
    assert FullPrompt(req) == front + c + "";
    ConcatOccurs(front, c, "");
    OccursWithin(FullPrompt(req), c, req.restrictions[i], |front|, k);
  }

  /** Where restriction i stands in the restrictions clause. */
  lemma RestrictionInClause(rs: seq<string>, i: nat) returns (k: nat)
    requires i < |rs|
    ensures OccursAt(RestrictionsClause(rs), rs[i], k)
  {
    var j := Join(rs, ",");
    var off := |Join(rs[..i], ",")| + (if i == 0 then 0 else 1);
    JoinContains(rs, ",", i);
    ConcatOccurs(RestrictionsLead, j, ".");
    OccursWithin(RestrictionsClause(rs), j, rs[i], |RestrictionsLead|, off);
    k := |RestrictionsLead| + off;
  }

  /** A chosen cuisine is a substring of the prompt. */
  lemma PromptMentionsCuisine(req: Request)
    requires req.cuisine != ""
    ensures Contains(FullPrompt(req), req.cuisine)
  {
    var b := BasePrompt(req.language, req.ingredients);
    var c := CuisineClause(req.cuisine);
    ConcatOccurs(CuisineLead, req.cuisine, ".");
    ConcatOccurs(b, c, RestrictionsPart(req.restrictions));
    OccursWithin(FullPrompt(req), c, req.cuisine, |b|, |CuisineLead|);
  }

  /** Choosing the first, empty entry of the cuisine list adds nothing:
      the prompt is the base followed by the restrictions part alone, and
      with no restrictions it is the base alone. */
  lemma FirstCuisineAddsNothing(req: Request)
    requires req.cuisine == Cuisines[0]
    ensures FullPrompt(req) == BasePrompt(req.language, req.ingredients) + RestrictionsPart(req.restrictions)
    ensures req.restrictions == [] ==> FullPrompt(req) == BasePrompt(req.language, req.ingredients)
  {
    assert Cuisines[0] == "";
    var b, r := BasePrompt(req.language, req.ingredients), RestrictionsPart(req.restrictions);
    EmptyMiddle(b, CuisinePart(req.cuisine), r);
    EmptyMiddle(b, "", r);
  }
}
