/**
 * The data model of the endpoint catalog: the recognised HTTP verbs and the
 * endpoint record (src/types.ts).
 */
module FigmaTypes {

  import opened Wrappers

  /** The verb tokens, in the order the source lists them. */
  const EndpointsMethods: seq<string> := ["GET", "POST", "PUT", "PATCH", "DELETE"]

  /** One value per entry of EndpointsMethods (the source's `EndpointMethod` union). */
  datatype Method = GET | POST | PUT | PATCH | DELETE

  /**
   * An endpoint as the parser returns it. The source's `method` field is
   * `httpMethod` here (`method` is a keyword). The source types it as a
   * required verb but fills it through an unchecked cast from a search that
   * may find nothing, so here it is optional; `response` is optional in the
   * source as well.
   */
  datatype Endpoint = Endpoint(httpMethod: Option<Method>, url: string, response: Option<string>)

  /** The text of a verb. */
  function Token(m: Method): (t: string)
    ensures t in EndpointsMethods
  {
    match m
    case GET => "GET"
    case POST => "POST"
    case PUT => "PUT"
    case PATCH => "PATCH"
    case DELETE => "DELETE"
  }

  /** `ENDPOINTS_METHODS.includes(text)`: exact, case-sensitive membership. */
  predicate IsMethodToken(text: string): (b: bool)
    ensures b <==> exists m :: Token(m) == text
  {
    var b := text in EndpointsMethods;
    assert b ==> (Token(GET) == text || Token(POST) == text || Token(PUT) == text
                  || Token(PATCH) == text || Token(DELETE) == text);
    b
  }

  /** The verb a text spells exactly, if any. */
  function MethodOf(text: string): (r: Option<Method>)
    ensures r.Some? <==> IsMethodToken(text)
    ensures r.Some? ==> Token(r.value) == text
  {
    if text == "GET" then Some(GET)
    else if text == "POST" then Some(POST)
    else if text == "PUT" then Some(PUT)
    else if text == "PATCH" then Some(PATCH)
    else if text == "DELETE" then Some(DELETE)
    else None
  }

  /** Reading a verb back from its text gives the verb. */
  lemma MethodOfToken(m: Method)
    ensures MethodOf(Token(m)) == Some(m)
  {
  }

  /** The five tokens are pairwise distinct: distinct verbs have distinct texts. */
  lemma TokenInjective(a: Method, b: Method)
    ensures Token(a) == Token(b) <==> a == b
  {
  }

  /** Exactly five tokens are recognised, and each of them is the text of some verb. */
  lemma TokensAreExactlyTheFive()
    ensures |EndpointsMethods| == 5
    ensures forall i :: 0 <= i < |EndpointsMethods| ==> Token(MethodOf(EndpointsMethods[i]).value) == EndpointsMethods[i]
    ensures forall i, j :: 0 <= i < j < |EndpointsMethods| ==> EndpointsMethods[i] != EndpointsMethods[j]
  {
  }

  /** Every token is a non-empty word of upper-case ASCII letters. */
  lemma TokensAreUppercase(m: Method)
    ensures |Token(m)| > 0
    ensures forall c :: c in Token(m) ==> 'A' <= c <= 'Z'
  {
  }

  /** `text.startsWith("/")`. */
  predicate StartsWithSlash(text: string): (b: bool)
    ensures b <==> "/" <= text
  {
    |text| > 0 && text[0] == '/'
  }

  /** No text is both a verb token and a path, so a fragment is never claimed twice. */
  lemma NoTokenStartsWithSlash(text: string)
    ensures !(IsMethodToken(text) && StartsWithSlash(text))
  {
  }
}
