/** The `POST /generate_recipe` handler: validation, prompt assembly,
    the call to the text-generation service and the cleanup of its reply. */
module RecipeHandler {
  import opened Text
  import opened Fence
  import opened RecipePrompt

  /** The outcome of the call to the text-generation service: the text of
      its response, or the message of the exception it raised. */
  datatype Reply = Ok(text: string) | Err(msg: string)

  /** The handler's two kinds of answer: a bare text body, or the recipe
      page showing `recipe`. */
  datatype Response = PlainText(body: string) | RecipePage(recipe: string)

  const ValidationMessage := "Kindly provide exactly 3 ingredients."
  const ErrorPrefix := "Error generating recipe: "

  /** The cleanup of a successful reply: fences replaced by their bodies,
      then surrounding whitespace stripped. */
  function Clean(text: string): (r: string)
    ensures Trimmed(r)
    ensures |r| <= |text|
  {
    Strip(Unfence(text))
  }

  /** A reply without the opening marker is only stripped. */
  lemma CleanWithoutFence(text: string)
    requires !Contains(text, Open)
    ensures Clean(text) == Strip(text)
  {
    UnfenceWithoutOpen(text);
  }

  /** A reply that is one fenced block yields its body, stripped. */
  lemma CleanFencedBlock(ws: string, body: string)
    requires AllSpaces(ws)
    requires !Contains(body, Close)
    ensures Clean(Open + ws + body + Close) == Strip(body)
  {
    UnfenceWrapped(ws, body);
    StripAfterLeading(body);
  }

  /** Stripping a cleaned reply again changes nothing. */
  lemma CleanStable(text: string)
    ensures Strip(Clean(text)) == Clean(text)
  {
    StripIdempotent(Unfence(text));
  }

  /** One request: `sent` is the prompt passed to the service, or None when
      the service is not called; `reply` is what that call produced. */
  method GenerateRecipe(req: Request, reply: Reply) returns (resp: Response, sent: Option<string>)
    ensures |req.ingredients| != 3 ==> resp == PlainText(ValidationMessage) && sent == None
    ensures |req.ingredients| == 3 ==> sent == Some(FullPrompt(req))
    ensures |req.ingredients| == 3 && reply.Ok? ==> resp == RecipePage(Clean(reply.text))
    ensures |req.ingredients| == 3 && reply.Err? ==> resp == RecipePage(ErrorPrefix + reply.msg)
    ensures resp.PlainText? ==> resp.body == ValidationMessage
    ensures resp.RecipePage? ==>
      (reply.Ok? && Trimmed(resp.recipe)) || (reply.Err? && resp.recipe == ErrorPrefix + reply.msg)
  {
    var prompt := BasePrompt(req.language, req.ingredients);
    if |req.ingredients| != 3 {
      return PlainText(ValidationMessage), None;
    }
    if req.cuisine != "" {
      prompt := prompt + CuisineClause(req.cuisine);
    }
    assert prompt == BasePrompt(req.language, req.ingredients) + CuisinePart(req.cuisine);
    if |req.restrictions| > 0 {
      prompt := prompt + RestrictionsClause(req.restrictions);
    }
    assert prompt == FullPrompt(req);
    sent := Some(prompt);
    var recipe: string;
    match reply {
      case Ok(text) =>
        recipe := Clean(text);
      case Err(msg) =>
        recipe := ErrorPrefix + msg;
    }
    resp := RecipePage(recipe);
  }
}
