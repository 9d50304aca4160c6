# Recipe generator: the `generate_recipe` handler

This project models, in Dafny, the one piece of logic in a small recipe
web application (`app.py`): the `POST /generate_recipe` handler. The
handler:

1. reads the submitted ingredients, cuisine, restrictions and language;
2. answers with a fixed message unless exactly three ingredients were
   submitted;
3. builds a prompt for a text-generation service;
4. cleans the service's reply by replacing every "```html … ```" code fence
   with its content, then stripping surrounding whitespace;
5. renders the cleaned text on the recipe page. When the call raises, it
   renders "Error generating recipe: " followed by the exception message.

The model is pure functions plus one method for the handler, in four
modules:

- `Text` (text.dfy): the Python string operations the handler uses.
  - `str.strip()` as `Strip`, over CPython's whitespace set `IsSpace`;
    the `re` module's `\s` uses the same set.
  - `str.join` as `Join`.
  - Substring occurrence as `OccursAt` and `Contains`.
- `Fence` (fence.dfy): `re.sub(r"```html\s*([\s\S]*?)```", r"\1", text)`.
  It is written out as the left-to-right scan Python's engine performs:
  - `MatchAt` is the match that starts at an index: greedy `\s*`, then a
    lazy body up to the first "```".
  - `SubFrom`/`Emit` replace each match by its body and resume after it;
    where no match starts they copy one character.
  - `Unfence` runs the scan over the whole reply.
- `RecipePrompt` (prompt.dfy): the request fields and the prompt.
  - The base instruction embeds the language and the ingredients joined
    by ", ".
  - A cuisine clause is added when the cuisine is non-empty.
  - A restrictions clause, joined by ",", is added when there are
    restrictions.
  - The clauses are appended with no separator, as in the source.
  - The backslash-newline continuations in the base literal are dropped by
    Python, while the four spaces that indent each following line stay
    part of the text.
- `RecipeHandler` (handler.dfy): the cleanup `Clean` (the fence scan,
  then strip) and the handler `GenerateRecipe`. The service call is an
  input (see "Left out"). `GenerateRecipe` returns the response and the
  prompt that would be sent: `sent`, which is `None` when the handler
  answers before calling the service.

`re.sub` runs over the whole reply (app.py:107), so every fenced block
anywhere in it is replaced by its content, not only a block that wraps the
whole reply. The restrictions are kept as the submitted list, in order,
because the code joins that list (app.py:100).

## Model

| member | source | states |
|---|---|---|
| RecipeHandler.GenerateRecipe | app.py:77-117 | With a count other than 3, the answer is exactly the validation message and the service is not called. With 3, the prompt sent is the full prompt. A successful reply renders its cleaned text; a failed call renders "Error generating recipe: " + message. Every answer is one of these three. |
| RecipeHandler.Clean | app.py:107 | The cleaned reply has no leading or trailing whitespace and is no longer than the reply. |
| RecipeHandler.CleanWithoutFence | app.py:107 | A reply without "```html" is only stripped. |
| RecipeHandler.CleanFencedBlock | app.py:107 | A reply that is "```html", whitespace, a body without "```", and "```" becomes the body, stripped. |
| RecipeHandler.CleanStable | app.py:107 | Stripping a cleaned reply again changes nothing. |
| Fence.Unfence | app.py:107 | The substitution over the whole reply; its own contract states only that the result is no longer than the reply. Its meaning is carried by UnfenceIdentityIff, UnfenceWithoutOpen and UnfenceWrapped. |
| Fence.SubFrom | app.py:107 | The scan from index i; its own contract states only that the result is no longer than the text scanned. SubFromFirstMatch, SubFromNoMatch and SubFromShrinks state what it emits. |
| Fence.Emit | app.py:107 | One step of the scan, given the match at i; its own contract is the same length bound. SubFromFirstMatch states the step with a match, SubFromNoMatch the steps without one. |
| Fence.MatchAt | app.py:107 | A match found at i has its body after the opening marker and its closing marker inside the text. MatchAtIsRegexMatch states that it is the match the pattern takes there. |
| Fence.FindClose | app.py:107 | A found closing marker starts at or after i and fits in the text. FindCloseFirst states that it is the first one, the lazy `[\s\S]*?`. |
| Fence.SkipSpaces | app.py:107 | The run taken by `\s*` ends between j and the end of the text. SkipSpacesSpan and SkipSpacesUnique state that it is the longest whitespace run. |
| Fence.MatchAtIsRegexMatch | app.py:107 | A match found at i is the one the pattern takes there: "```html" starts at i, only whitespace follows it up to the body, the body starts at a non-whitespace character, "```" starts at the end of the body, and no "```" starts earlier in the body. When none is found, either "```html" is not at i or no "```" follows it at all. |
| Fence.SubFromFirstMatch | app.py:107 | The substitution replaces the leftmost match: the text before the first index at or after i where the pattern matches is copied unchanged, then the body of that match is emitted and the scan resumes right after its closing "```". |
| Fence.SubFromNoMatch | app.py:107 | Where no match starts at or after i, the substitution copies the text unchanged. |
| Fence.SubFromShrinks | app.py:107 | Any match at or after i makes the result strictly shorter than the scanned text. |
| Fence.UnfenceIdentityIff | app.py:107 | The substitution leaves a text unchanged if and only if the pattern matches nowhere in it. |
| Fence.UnfenceWithoutOpen | app.py:107 | A text that does not contain "```html" is left as it is. |
| Fence.UnfenceWrapped | app.py:107 | "```html" + whitespace + body + "```", with no "```" in the body, becomes the body without its leading whitespace, even when the body ends in one or two backquotes. |
| Fence.OpensAtMeans | app.py:107 | The character test for the opening marker holds exactly where "```html" occurs. |
| Fence.ClosesAtMeans | app.py:107 | The character test for the closing marker holds exactly where "```" occurs. |
| Fence.FindCloseFirst | app.py:107 | The search for the closing marker returns an index where it starts and no earlier one; when it returns nothing, no marker starts at or after the starting index. |
| Fence.SkipSpacesSpan | app.py:107 | The whitespace run taken by `\s*` holds only whitespace and stops at a character that is not whitespace. |
| Fence.SkipSpacesUnique | app.py:107 | Any end of a whitespace run that stops at a non-whitespace character is where the run taken by `\s*` ends. |
| Text.Strip | app.py:107 | The result has no leading or trailing whitespace and is the slice between the input's whitespace prefix and a whitespace suffix. |
| Text.StripUnique | app.py:107 | A string without surrounding whitespace, padded with whitespace on both sides, strips back to exactly itself. |
| Text.StripIdempotent | app.py:107 | Stripping twice gives the same as stripping once. |
| Text.StripAfterLeading | app.py:107 | Removing the leading whitespace first does not change the result of strip. |
| Text.LeadingSpaces | app.py:107 | The counted prefix is all whitespace and is followed by a non-whitespace character or the end. |
| Text.Join | app.py:88-100 | A one-element list joins to its element. JoinAppend and JoinContains state the rest: one separator between the parts, and every element at its place. |
| Text.JoinAppend | app.py:88 | Joining two non-empty lists puts exactly one separator between their joins. |
| Text.JoinContains | app.py:88 | Each element of a join occurs in it, right after the join of the elements before it and a separator. |
| RecipePrompt.BasePrompt | app.py:87-90 | The language occurs right after "Craft a recipe in HTML in ", and the ingredients joined by ", " occur after the language and " using ". |
| RecipePrompt.FullPrompt | app.py:87-100 | The prompt is exactly as long as the base instruction, the cuisine part and the restrictions part together. PromptStartsWithBase, CuisineClauseIff and RestrictionsClauseIff state their order and contents. |
| RecipePrompt.CuisineClause | app.py:98 | The clause is as long as "The cuisine should be ", the cuisine and a full stop, and ends in the full stop. |
| RecipePrompt.RestrictionsClause | app.py:100 | The clause is as long as its lead, the restrictions joined by "," and a full stop, and ends in the full stop. |
| RecipePrompt.CuisinePart | app.py:97-98 | The cuisine adds text to the prompt if and only if it is non-empty. |
| RecipePrompt.RestrictionsPart | app.py:99-100 | The restrictions add text to the prompt if and only if at least one was selected. |
| RecipePrompt.PromptStartsWithBase | app.py:87-100 | The full prompt starts with the base instruction. |
| RecipePrompt.PromptNamesLanguage | app.py:87 | The full prompt names the requested language at the fixed offset. |
| RecipePrompt.PromptListsThreeIngredients | app.py:88 | With three ingredients, the prompt holds them in the order submitted, separated by ", ". |
| RecipePrompt.PromptMentionsIngredient | app.py:88 | Every submitted ingredient is a substring of the prompt. |
| RecipePrompt.CuisineClauseIff | app.py:97-98 | Right after the base instruction, the text opens the cuisine clause if and only if the cuisine is non-empty. When it is non-empty, the whole clause "The cuisine should be " + cuisine + "." stands there. |
| RecipePrompt.PromptMentionsCuisine | app.py:98 | A chosen cuisine is a substring of the prompt. |
| RecipePrompt.FirstCuisineAddsNothing | app.py:97-98 | Choosing the first, empty entry of the cuisine list adds nothing: the prompt is the base plus the restrictions part, or the base alone without restrictions. |
| RecipePrompt.RestrictionsClauseIff | app.py:99-100 | The prompt goes on past the base and the cuisine part if and only if restrictions were selected. When they were, what follows is exactly the restrictions clause, so it comes after any cuisine clause. |
| RecipePrompt.PromptMentionsRestriction | app.py:100 | Every selected restriction is a substring of the prompt. |

## Left out

- The web framework: the Flask application, the routes, reading
  `request.form` and rendering the templates (app.py:1, 7, 69-72, 77-80,
  112-117, 121-122). The handler takes the form fields as a `Request`
  value and returns the page's `recipe` value, not the rendered HTML.
- The configuration: `load_dotenv`, the API key and the model setup
  (app.py:9-14).
- The service call (app.py:104-105). It is an input `Reply`: the text of
  the response, or the message `str(e)` of the exception the call or
  `response.text` raised. `GenerateRecipe` returns the prompt it would
  send in `sent`.
- The three `print` calls (app.py:82-84). They only write to the console.
- RecipeHandler.GenerateRecipe: each form field is taken as a string.
  When the cuisine or language field is missing, `request.form.get`
  returns `None` and the prints at app.py:82 and 84 raise before
  validation. The model does not represent that failure.
- The restriction and language option lists (app.py:30-67): the handler
  never reads them, only the templates do.
- Text.IsSpace: the whitespace set is that of current CPython releases.
  Changes to it between Unicode database versions are not modelled.
