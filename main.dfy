/**
 * The extraction of the endpoint catalog from the rendered API reference page
 * (src/main.ts). The browser is replaced by the values it would hand back:
 * every `div` of the page in document order, each with its `id`, the text
 * content of its `p > span` elements and its descendant `div`s.
 */
module FigmaDocParser {

  import opened Wrappers
  import opened FigmaTypes

  /** The marker a section container's id ends with. */
  const SectionSuffix: string := "-endpoints"
  /** The marker an endpoint container's id ends with. */
  const EndpointSuffix: string := "-endpoint"
  /** The message of the error thrown when the page has no section. */
  const NoEndpointsTagFound: string := "No endpoints tag found"

  /**
   * A `div` of the rendered page: its `id`, the `textContent` of each of its
   * `p > span` elements in document order (None where the DOM gives null), and
   * its descendant `div`s in document order.
   */
  datatype Div = Div(id: string, spans: seq<Option<string>>, descendants: seq<Div>)

  /** How a run of the catalog builder ends. */
  datatype Outcome = Completed | Thrown(message: string)

  // ---------------------------------------------------------------------------
  // parseEndpointDoc
  // ---------------------------------------------------------------------------

  /** `Array.prototype.find`: the first element, in order, that `p` accepts. */
  function Find<T>(s: seq<T>, p: T -> bool): (r: Option<T>)
    ensures r.None? <==> forall i :: 0 <= i < |s| ==> !p(s[i])
    ensures r.Some? ==> exists k :: 0 <= k < |s| && s[k] == r.value && p(s[k]) && forall j :: 0 <= j < k ==> !p(s[j])
  {
    if s == [] then None
    else if p(s[0]) then Some(s[0])
    else
      var r := Find(s[1..], p);
      assert forall i :: 1 <= i < |s| ==> s[i] == s[1..][i - 1];
      r
  }

  /** An element `p` rejects can be inserted anywhere without changing what is found. */
  lemma {:induction false} FindSkipsRejected<T>(a: seq<T>, x: T, b: seq<T>, p: T -> bool)
    requires !p(x)
    ensures Find(a + [x] + b, p) == Find(a + b, p)
  {
    if a == [] {
      calc {
        Find(a + [x] + b, p);
        { assert a + [x] + b == [x] + b; }
        Find([x] + b, p);
        { assert ([x] + b)[0] == x && ([x] + b)[1..] == b; }
        Find(b, p);
        { assert a + b == b; }
        Find(a + b, p);
      }
    } else {
      FindSkipsRejected(a[1..], x, b, p);
      assert (a + [x] + b)[1..] == a[1..] + [x] + b;
      assert (a + b)[1..] == a[1..] + b;
    }
  }

  /** `el.textContent || ""`: a null text content reads as the empty string. */
  function TextContent(t: Option<string>): (text: string)
    ensures t.None? ==> text == ""
    ensures t.Some? ==> text == t.value
  {
    t.GetOr("")
  }

  /** The awaited `Promise.all(spans.map(getElTextContent))`: one text per span, in order. */
  function SpanContents(spans: seq<Option<string>>): (texts: seq<string>)
    ensures |texts| == |spans|
    ensures forall i :: 0 <= i < |spans| ==> texts[i] == TextContent(spans[i])
    ensures forall i :: 0 <= i < |spans| && spans[i].None? ==> texts[i] == ""
    ensures forall i :: 0 <= i < |spans| && spans[i].Some? ==> texts[i] == spans[i].value
  {
    seq(|spans|, i requires 0 <= i < |spans| => TextContent(spans[i]))
  }

  /**
   * `parseEndpointDoc`: the method is the first text that exactly equals a verb
   * token, the url the first text that starts with "/" (else ""); no response.
   */
  function ParseEndpointDoc(spans: seq<Option<string>>): (e: Endpoint)
    ensures e.response == None
    ensures e.httpMethod.None? <==> forall i :: 0 <= i < |spans| ==> !IsMethodToken(TextContent(spans[i]))
    ensures e.httpMethod.Some? ==>
      exists k :: 0 <= k < |spans| && TextContent(spans[k]) == Token(e.httpMethod.value)
        && forall j :: 0 <= j < k ==> !IsMethodToken(TextContent(spans[j]))
    ensures e.url == "" <==> forall i :: 0 <= i < |spans| ==> !StartsWithSlash(TextContent(spans[i]))
    ensures e.url != "" ==>
      exists k :: 0 <= k < |spans| && TextContent(spans[k]) == e.url && StartsWithSlash(e.url)
        && forall j :: 0 <= j < k ==> !StartsWithSlash(TextContent(spans[j]))
  {
    var texts := SpanContents(spans);
    var verb := Find(texts, IsMethodToken);
    var path := Find(texts, StartsWithSlash);
    Endpoint(if verb.Some? then MethodOf(verb.value) else None, path.GetOr(""), None)
  }

  /**
   * A span whose text is neither a verb nor a path (in particular a span with
   * null or empty text) can be added anywhere without changing the endpoint.
   */
  lemma {:induction false} ParseIgnoresUnclassifiedSpan(a: seq<Option<string>>, x: Option<string>, b: seq<Option<string>>)
    requires !IsMethodToken(TextContent(x)) && !StartsWithSlash(TextContent(x))
    ensures ParseEndpointDoc(a + [x] + b) == ParseEndpointDoc(a + b)
  {
    var ta, tb := SpanContents(a), SpanContents(b);
    assert SpanContents(a + [x] + b) == ta + [TextContent(x)] + tb;
    assert SpanContents(a + b) == ta + tb;
    FindSkipsRejected(ta, TextContent(x), tb, IsMethodToken);
    FindSkipsRejected(ta, TextContent(x), tb, StartsWithSlash);
  }

  /** A null span contributes "", which is neither a verb nor a path: it never changes the endpoint. */
  lemma NullSpanIsIgnored(a: seq<Option<string>>, b: seq<Option<string>>)
    ensures ParseEndpointDoc(a + [None] + b) == ParseEndpointDoc(a + b)
    ensures ParseEndpointDoc(a + [Some("")] + b) == ParseEndpointDoc(a + b)
  {
    ParseIgnoresUnclassifiedSpan(a, None, b);
    ParseIgnoresUnclassifiedSpan(a, Some(""), b);
  }

  /** Matching is exact: no trimming and no case folding. */
  lemma NoTrimNoCaseFold()
    ensures ParseEndpointDoc([Some(" GET"), Some("get"), Some("GET ")]).httpMethod == None
    ensures ParseEndpointDoc([Some(" /files")]).url == ""
  {
  }

  // ---------------------------------------------------------------------------
  // parseFigmaDoc
  // ---------------------------------------------------------------------------

  /** The CSS attribute test `[id$=suffix]` for a non-empty suffix. */
  predicate EndsWith(s: string, suffix: string)
  {
    |suffix| <= |s| && s[|s| - |suffix|..] == suffix
  }

  /** The `div`s among `divs` whose id ends with `suffix`, in document order. */
  function SelectByIdSuffix(divs: seq<Div>, suffix: string): (r: seq<Div>)
    ensures |r| <= |divs|
    ensures forall d :: d in r <==> d in divs && EndsWith(d.id, suffix)
  {
    if divs == [] then []
    else
      var rest := SelectByIdSuffix(divs[1..], suffix);
      assert forall d :: d in divs <==> d == divs[0] || d in divs[1..];
      if EndsWith(divs[0].id, suffix) then [divs[0]] + rest else rest
  }

  /** Selection keeps document order: selecting from two runs is selecting from each. */
  lemma {:induction false} SelectByIdSuffixAppend(a: seq<Div>, b: seq<Div>, suffix: string)
    ensures SelectByIdSuffix(a + b, suffix) == SelectByIdSuffix(a, suffix) + SelectByIdSuffix(b, suffix)
  {
    if a != [] {
      assert (a + b)[1..] == a[1..] + b;
      SelectByIdSuffixAppend(a[1..], b, suffix);
    } else {
      assert a + b == b;
    }
  }

  /** `page.$$('div[id$="-endpoints"]')`: the section containers. */
  function EndpointsTags(page: seq<Div>): (tags: seq<Div>)
    ensures forall d :: d in tags <==> d in page && EndsWith(d.id, SectionSuffix)
  {
    SelectByIdSuffix(page, SectionSuffix)
  }

  /**
   * `$$('#<id> div[id$="-endpoint"]')` on a section: its endpoint containers.
   * The section itself carries the id, so every descendant passes the `#<id>`
   * part and only the suffix test selects.
   */
  function EndpointEls(section: Div): (els: seq<Div>)
    ensures forall d :: d in els <==> d in section.descendants && EndsWith(d.id, EndpointSuffix)
  {
    SelectByIdSuffix(section.descendants, EndpointSuffix)
  }

  /** The awaited `Promise.all(endpointsEl.map(parseEndpointDoc))`. */
  function ParseEndpoints(els: seq<Div>): (r: seq<Endpoint>)
    ensures |r| == |els|
    ensures forall i :: 0 <= i < |els| ==> r[i] == ParseEndpointDoc(els[i].spans)
  {
    seq(|els|, i requires 0 <= i < |els| => ParseEndpointDoc(els[i].spans))
  }

  /** Whether a section gets an entry: it has at least one endpoint container. */
  predicate HasEndpoints(section: Div)
  {
    |EndpointEls(section)| > 0
  }

  /** A section is stored exactly when one of its descendant divs is an endpoint container. */
  lemma HasEndpointsIff(section: Div)
    ensures HasEndpoints(section) <==> exists d :: d in section.descendants && EndsWith(d.id, EndpointSuffix)
  {
    var els := EndpointEls(section);
    assert |els| > 0 ==> els[0] in els;
  }

  /** One pass of the loop: skip an empty section, else store its endpoints under its id. */
  function Store(m: map<string, seq<Endpoint>>, section: Div): map<string, seq<Endpoint>>
  {
    if HasEndpoints(section) then m[section.id := ParseEndpoints(EndpointEls(section))] else m
  }

  /**
   * One pass stores a section with endpoints under its id, overwriting any
   * earlier entry, and leaves every other key alone; it skips the others.
   */
  lemma StoreSpec(m: map<string, seq<Endpoint>>, section: Div)
    ensures !HasEndpoints(section) ==> Store(m, section) == m
    ensures HasEndpoints(section) ==> Store(m, section).Keys == m.Keys + {section.id}
    ensures HasEndpoints(section) ==> Store(m, section)[section.id] == ParseEndpoints(EndpointEls(section))
    ensures forall k :: k in m && k != section.id ==> Store(m, section)[k] == m[k]
  {
  }

  /** The map after the loop has processed `sections` in order, starting from `m`. */
  function BuildMap(m: map<string, seq<Endpoint>>, sections: seq<Div>): (r: map<string, seq<Endpoint>>)
    ensures m.Keys <= r.Keys
  {
    if sections == [] then m
    else
      var init := sections[..|sections| - 1];
      assert forall i :: 0 <= i < |init| ==> init[i] == sections[i];
      Store(BuildMap(m, init), sections[|sections| - 1])
  }

  /** The keys after the loop: the old keys and the ids of the sections that have endpoints. */
  lemma {:induction false} BuildMapKeys(m: map<string, seq<Endpoint>>, sections: seq<Div>, id: string)
    ensures id in BuildMap(m, sections) <==>
      id in m || exists i :: 0 <= i < |sections| && sections[i].id == id && HasEndpoints(sections[i])
  {
    if sections != [] {
      var n := |sections|;
      var init, last := sections[..n - 1], sections[n - 1];
      BuildMapKeys(m, init, id);
      assert BuildMap(m, sections) == Store(BuildMap(m, init), last);
      assert forall i :: 0 <= i < n - 1 ==> init[i] == sections[i];
    }
  }

  /**
   * The entry of an id is the parse of the last section with that id that has
   * endpoints: later sections overwrite earlier ones.
   */
  lemma {:induction false} BuildMapLastWins(m: map<string, seq<Endpoint>>, sections: seq<Div>, i: nat)
    requires i < |sections| && HasEndpoints(sections[i])
    requires forall j :: i < j < |sections| ==> !(sections[j].id == sections[i].id && HasEndpoints(sections[j]))
    ensures sections[i].id in BuildMap(m, sections)
    ensures BuildMap(m, sections)[sections[i].id] == ParseEndpoints(EndpointEls(sections[i]))
  {
    var n := |sections|;
    var init := sections[..n - 1];
    if i < n - 1 {
      assert init[i] == sections[i];
      assert forall j :: i < j < |init| ==> init[j] == sections[j];
      BuildMapLastWins(m, init, i);
    }
  }

  /** An id that no section with endpoints carries keeps its old entry, or stays absent. */
  lemma {:induction false} BuildMapUntouched(m: map<string, seq<Endpoint>>, sections: seq<Div>, id: string)
    requires forall i :: 0 <= i < |sections| ==> !(sections[i].id == id && HasEndpoints(sections[i]))
    ensures id in BuildMap(m, sections) <==> id in m
    ensures id in m ==> BuildMap(m, sections)[id] == m[id]
  {
    if sections != [] {
      var init := sections[..|sections| - 1];
      assert forall i :: 0 <= i < |init| ==> init[i] == sections[i];
      BuildMapUntouched(m, init, id);
    }
  }

  /** Processing two runs of sections is processing the first, then the second. */
  lemma {:induction false} BuildMapAppend(m: map<string, seq<Endpoint>>, a: seq<Div>, b: seq<Div>)
    ensures BuildMap(m, a + b) == BuildMap(BuildMap(m, a), b)
  {
    if b != [] {
      var n := |b|;
      assert (a + b)[..|a + b| - 1] == a + b[..n - 1];
      assert (a + b)[|a + b| - 1] == b[n - 1];
      BuildMapAppend(m, a, b[..n - 1]);
    } else {
      assert a + b == a;
    }
  }

  /** A section without endpoints is skipped and the loop goes on with the next one. */
  lemma SkipsEmptySection(m: map<string, seq<Endpoint>>, a: seq<Div>, section: Div, b: seq<Div>)
    requires !HasEndpoints(section)
    ensures BuildMap(m, a + [section] + b) == BuildMap(m, a + b)
  {
    BuildMapAppend(m, a + [section], b);
    BuildMapAppend(m, a, [section]);
    assert [section][..0] == [];
    BuildMapAppend(m, a, b);
  }

  /** The run's state: the module-level `endpointsMap`. */
  class Catalog {
    var endpointsMap: map<string, seq<Endpoint>>

    /** The map starts empty when the module loads. */
    constructor ()
      ensures endpointsMap == map[]
    {
      endpointsMap := map[];
    }

    /**
     * `parseFigmaDoc` on a rendered page: throws before touching the map when
     * there is no section container; otherwise processes the sections in
     * document order, skipping those without endpoint containers and storing
     * the others' parsed endpoints under their ids.
     */
    method ParseFigmaDoc(page: seq<Div>) returns (outcome: Outcome)
      modifies this
      ensures EndpointsTags(page) == [] ==> outcome == Thrown(NoEndpointsTagFound) && endpointsMap == old(endpointsMap)
      ensures EndpointsTags(page) != [] ==> outcome == Completed && endpointsMap == BuildMap(old(endpointsMap), EndpointsTags(page))
    {
      var endpointsTagEl := EndpointsTags(page);
      if |endpointsTagEl| == 0 {
        return Thrown(NoEndpointsTagFound);
      }
      for i := 0 to |endpointsTagEl|
        invariant endpointsMap == BuildMap(old(endpointsMap), endpointsTagEl[..i])
      {
        assert endpointsTagEl[..i + 1][..i] == endpointsTagEl[..i];
        var endpointTagId := endpointsTagEl[i].id;
        var endpointsEl := EndpointEls(endpointsTagEl[i]);
        if |endpointsEl| == 0 {
          continue;
        }
        var endpoints := ParseEndpoints(endpointsEl);
        endpointsMap := endpointsMap[endpointTagId := endpoints];
      }
      assert endpointsTagEl[..|endpointsTagEl|] == endpointsTagEl;
      return Completed;
    }
  }
}
