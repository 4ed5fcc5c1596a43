# Figma API reference scraper: endpoint catalog extraction

A model of the part of the scraper that turns the rendered Figma REST API
reference page into a catalog of endpoints grouped by section.

- `FigmaTypes` (src/types.ts): the five HTTP verb tokens `ENDPOINTS_METHODS`,
  the `EndpointMethod` union as the datatype `Method`, and the
  `FigmaEndpoint` record (src/types.ts:11-15) as the datatype `Endpoint`:
  a method, a url and an optional response. The record's `method` field is
  named `httpMethod` because `method` is a Dafny keyword, and it is optional
  (see below).
- `FigmaDocParser` (src/main.ts):
  - `ParseEndpointDoc` models `parseEndpointDoc`. It takes the `textContent` of an
    endpoint's `p > span` elements (a null reads as `""`). The method is the first
    text that exactly equals a verb token. The url is the first text that starts
    with `/`, or `""` if none does.
  - `Catalog.ParseFigmaDoc` models the section loop of `parseFigmaDoc`. The
    module-level `endpointsMap` is the field of a `Catalog` object. The page is
    the sequence of its `div`s in document order. Each `div` carries its id, its
    span texts and its descendant `div`s. The CSS suffix selectors
    `div[id$="-endpoints"]` and `div[id$="-endpoint"]` are the function
    `SelectByIdSuffix`, which keeps document order. The section carries the id
    used in the scoped query `#<id> div[id$="-endpoint"]`, so that query selects
    exactly the section's descendant divs whose id ends with `-endpoint`
    (`EndpointEls`).
  - The loop is proved against `BuildMap`. `BuildMap` folds one step, `Store`, over
    the sections: a section without endpoint containers is skipped, and any other
    section's parsed endpoints are written under its id.
  - Lemmas about `BuildMap` state what the map holds after a run.

The source types `method` as always present, but it fills the field through an
unchecked cast of a search that may find nothing. The model therefore keeps it
as an `Option`. The code never trims fragment text, never parses response
text and never derives response-shape names. The model follows the code on all
three points.

## Model

| member | source | states |
|---|---|---|
| `FigmaTypes.Token` | src/types.ts:1-9 | every `EndpointMethod` value is spelled by an entry of `ENDPOINTS_METHODS` |
| `FigmaTypes.MethodOf` | src/types.ts:1-9 | a text names a verb exactly when it is in `ENDPOINTS_METHODS` (exact `includes`), and then that verb's token is the text |
| `FigmaTypes.MethodOfToken` | src/types.ts:1-9 | reading a verb back from its token gives the same verb |
| `FigmaTypes.TokenInjective` | src/types.ts:1-7 | two verbs have the same token only if they are the same verb, so the five tokens are pairwise distinct |
| `FigmaTypes.TokensAreExactlyTheFive` | src/types.ts:1-7 | exactly five tokens are recognised; they are distinct, and each is the token of the verb read from it |
| `FigmaTypes.TokensAreUppercase` | src/types.ts:1-7 | every token is a non-empty word of upper-case letters A-Z |
| `FigmaTypes.NoTokenStartsWithSlash` | src/types.ts:1-7 | no text is both a verb token and a path starting with `/`, so no fragment can be both the method and the url |
| `FigmaTypes.IsMethodToken` | src/main.ts:23 | the `includes` test holds of a text exactly when the text is the token of one of the five verbs |
| `FigmaTypes.StartsWithSlash` | src/main.ts:26 | the `startsWith("/")` test holds exactly when `"/"` is a prefix of the text |
| `FigmaDocParser.Find` | src/main.ts:22-26 | `find` returns nothing exactly when no element passes the test; otherwise it returns an element that passes and that no earlier element passes |
| `FigmaDocParser.FindSkipsRejected` | src/main.ts:22-26 | inserting an element that fails the test anywhere does not change what `find` returns |
| `FigmaDocParser.TextContent` | src/main.ts:17-18 | a null `textContent` reads as `""`; any other text is kept as it is |
| `FigmaDocParser.SpanContents` | src/main.ts:17-20 | one text per span, in span order: `""` where the span's `textContent` is null, the text itself otherwise |
| `FigmaDocParser.ParseEndpointDoc` | src/main.ts:12-32 | the method is absent exactly when no text equals a verb token; otherwise it is the verb of the first text that equals a token. The url is `""` exactly when no text starts with `/`; otherwise it is the first such text. No response is set |
| `FigmaDocParser.ParseIgnoresUnclassifiedSpan` | src/main.ts:17-26 | a span whose text is neither a verb token nor a path can be inserted anywhere without changing the parsed endpoint |
| `FigmaDocParser.NullSpanIsIgnored` | src/main.ts:17-26 | a span with null or empty text contributes `""`, which is neither method nor url, so it never changes the endpoint |
| `FigmaDocParser.NoTrimNoCaseFold` | src/main.ts:22-26 | `" GET"`, `"get"` and `"GET "` are not methods and `" /files"` is not a url: there is no trimming and no case folding |
| `FigmaDocParser.SelectByIdSuffix` | src/main.ts:42 | the selected divs are exactly those whose id ends with the suffix, and there are no more of them than divs |
| `FigmaDocParser.SelectByIdSuffixAppend` | src/main.ts:42 | selection keeps document order: selecting from two runs of divs is the concatenation of selecting from each |
| `FigmaDocParser.EndpointsTags` | src/main.ts:42 | the section containers are exactly the page's divs whose id ends with `-endpoints` |
| `FigmaDocParser.EndpointEls` | src/main.ts:49-52 | a section's endpoint containers are exactly its descendant divs whose id ends with `-endpoint` |
| `FigmaDocParser.HasEndpointsIff` | src/main.ts:54 | a section is stored exactly when some descendant div's id ends with `-endpoint` |
| `FigmaDocParser.ParseEndpoints` | src/main.ts:59-61 | a section's endpoint list has one entry per endpoint container, and entry i is the parse of container i |
| `FigmaDocParser.StoreSpec` | src/main.ts:49-63 | one pass of the loop: a section without endpoint containers leaves the map as it is; otherwise its id becomes a key whose entry is the section's parsed endpoints, and every other key keeps its entry |
| `FigmaDocParser.BuildMap` | src/main.ts:48-64 | the loop over the sections in order never removes a key; which keys it adds and what it stores under them is stated by the `BuildMapKeys`, `BuildMapLastWins` and `BuildMapUntouched` rows |
| `FigmaDocParser.BuildMapKeys` | src/main.ts:48-64 | after the loop, an id is a key exactly when it was a key before or is the id of some section that has endpoint containers |
| `FigmaDocParser.BuildMapLastWins` | src/main.ts:48-64 | the entry of an id is the parsed endpoint list of the last section with that id that has endpoint containers; later sections overwrite earlier ones |
| `FigmaDocParser.BuildMapUntouched` | src/main.ts:48-64 | an id that no section with endpoint containers carries keeps its old entry, or stays absent |
| `FigmaDocParser.BuildMapAppend` | src/main.ts:48-64 | processing two runs of sections is processing the first and then the second from the resulting map |
| `FigmaDocParser.SkipsEmptySection` | src/main.ts:54-57 | a section without endpoint containers can be removed from the page without changing the final map: it is skipped and the loop continues |
| `FigmaDocParser.Catalog.constructor` | src/main.ts:10 | the endpoints map starts empty |
| `FigmaDocParser.Catalog.ParseFigmaDoc` | src/main.ts:42-64 | with no `-endpoints` section it throws "No endpoints tag found" and leaves the map unchanged; otherwise it completes, and the map is `BuildMap` of the old map over the sections in document order |

## Left out

- Browser lifecycle and navigation (`puppeteer.launch`, `newPage`, `goto`, `browser.close`) are I/O through a library outside the model. The page is a parameter of `ParseFigmaDoc`.
- The DOM calls `$$` and `evaluate` are replaced by the `Div` values they would read: ids, span texts and descendant divs.
- `Catalog.ParseFigmaDoc` assumes that every section id, pasted after `#` in `#<id> div[...]`, reads back as that id. CSS parsing is not modelled, so two cases are missed. First, an id that is not valid CSS, such as `1-endpoints`, makes the browser query throw a syntax error. Second, some ids are valid CSS but are not plain identifiers. `a.b-endpoints` reads as id `a` with class `b-endpoints`, and `a#b-endpoints` as two ids. For such an id the query quietly finds nothing, so the source logs and skips the section. The model stores it.
- `Catalog.ParseFigmaDoc`: the map is a Dafny `map`, which has no order. The source's JavaScript `Map` keeps insertion order, and a `set` on an existing key keeps that key's first position. Only the printout at src/main.ts:66 shows this order, so the model does not capture it.
- The concurrency of `Promise.all` is not modelled. Only its order-preserving result is kept, as sequential maps (`SpanContents`, `ParseEndpoints`).
- Logging (`console.error` for a skipped section, `console.log` of the map), the `DEBUG` flag, the `ts-reset` import and the top-level call are not modelled. None of them changes the catalog.
- Response-shape naming, the response registry and response-text parsing are not in this code, so they are not modelled.
