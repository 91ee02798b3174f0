/**
 * The prefix registry used to write PLCopen XML in canonical form: a prefix
 * for every namespace URI of a document, and qualified names built from it.
 */
module XmlNamespaces {
  import opened Wrappers

  type Uri = string
  type Prefix = string

  const PLCOPEN_NS: Uri := "http://www.plcopen.org/xml/tc6_0201"
  const XHTML_NS: Uri := "http://www.w3.org/1999/xhtml"
  const XML_NS: Uri := "http://www.w3.org/XML/1998/namespace"

  // The namespace declarations (prefix, URI) and the attribute namespaces of
  // one element.
  datatype Element = Element(namespaces: seq<(Option<Prefix>, Uri)>, attributes: seq<Option<Uri>>)

  // ----- candidate prefixes -----

  function Decimal(n: nat): string {
    if n < 10 then [('0' as int + n) as char] else Decimal(n / 10) + [('0' as int + n % 10) as char]
  }

  function DigitValue(c: char): int {
    c as int - '0' as int
  }

  function Parsed(s: string): int {
    if s == "" then 0 else 10 * Parsed(s[..|s| - 1]) + DigitValue(s[|s| - 1])
  }

  lemma {:induction false} DecimalParses(n: nat)
    ensures Parsed(Decimal(n)) == n
  {
    if n < 10 {
      assert Decimal(n)[..0] == "";
    } else {
      DecimalParses(n / 10);
      var s := Decimal(n);
      assert s[..|s| - 1] == Decimal(n / 10);
    }
  }

  function Candidate(k: nat): Prefix {
    "ns" + Decimal(k)
  }

  lemma CandidatesDiffer(j: nat, k: nat)
    requires Candidate(j) == Candidate(k)
    ensures j == k
  {
    assert Candidate(j)[2..] == Decimal(j) && Candidate(k)[2..] == Decimal(k);
    DecimalParses(j);
    DecimalParses(k);
  }

  function Candidates(n: nat): set<Prefix> {
    set k | 1 <= k <= n :: Candidate(k)
  }

  lemma {:induction false} CandidateCount(n: nat)
    ensures |Candidates(n)| == n
  {
    if n > 0 {
      CandidateCount(n - 1);
      forall k | 1 <= k <= n - 1 ensures Candidate(k) != Candidate(n) {
        if Candidate(k) == Candidate(n) { CandidatesDiffer(k, n); }
      }
      assert Candidates(n) == Candidates(n - 1) + {Candidate(n)};
    } else {
      assert Candidates(0) == {};
    }
  }

  lemma Pigeonhole(n: nat, taken: set<Prefix>)
    requires Candidates(n) <= taken
    ensures n <= |taken|
  {
    CandidateCount(n);
    SubsetSize(Candidates(n), taken);
  }

  lemma {:induction false} SubsetSize(a: set<Prefix>, b: set<Prefix>)
    requires a <= b
    ensures |a| <= |b|
  {
    if a == {} {
    } else {
      var x :| x in a;
      SubsetSize(a - {x}, b - {x});
    }
  }

  function Preferred(preferred: Prefix): Prefix {
    if preferred == "" || preferred == "xmlns" then "ns" else preferred
  }

  // The preferred prefix when it is free (or already stands for the URI), else
  // the first free one of ns1, ns2, ...; found within one try more than there
  // are prefixes.
  method UniqueNamespacePrefix(preferred: Prefix, uri: Uri, uriByPrefix: map<Prefix, Uri>) returns (prefix: Prefix)
    ensures prefix in uriByPrefix ==> uriByPrefix[prefix] == uri
    ensures (Preferred(preferred) in uriByPrefix ==> uriByPrefix[Preferred(preferred)] == uri)
        ==> prefix == Preferred(preferred)
    ensures prefix != Preferred(preferred) ==> exists k: nat ::
      1 <= k <= |uriByPrefix| + 1 && prefix == Candidate(k) && prefix !in uriByPrefix
          && Candidates(k - 1) <= uriByPrefix.Keys
  {
    var wanted := Preferred(preferred);
    if wanted !in uriByPrefix || uriByPrefix[wanted] == uri { return wanted; }
    var index: nat := 1;
    Pigeonhole(0, uriByPrefix.Keys);
    while true
      invariant 1 <= index <= |uriByPrefix| + 1
      invariant Candidates(index - 1) <= uriByPrefix.Keys
      decreases |uriByPrefix| + 1 - index
    {
      var candidate := Candidate(index);
      if candidate !in uriByPrefix { return candidate; }
      assert Candidates(index) <= uriByPrefix.Keys by {
        assert Candidates(index) == Candidates(index - 1) + {candidate};
      }
      Pigeonhole(index, uriByPrefix.Keys);
      assert |uriByPrefix.Keys| == |uriByPrefix|;
      index := index + 1;
    }
  }

  // ----- the registry -----

  predicate Inverse(prefixByUri: map<Uri, Prefix>, uriByPrefix: map<Prefix, Uri>) {
    && (forall u :: u in prefixByUri ==> prefixByUri[u] in uriByPrefix && uriByPrefix[prefixByUri[u]] == u)
    && (forall p :: p in uriByPrefix ==> uriByPrefix[p] in prefixByUri && prefixByUri[uriByPrefix[p]] == p)
  }

  predicate Reserved(prefixByUri: map<Uri, Prefix>) {
    && XHTML_NS in prefixByUri && prefixByUri[XHTML_NS] == "xhtml"
    && XML_NS in prefixByUri && prefixByUri[XML_NS] == "xml"
    && PLCOPEN_NS !in prefixByUri
  }

  function DeclaredUris(namespaces: seq<(Option<Prefix>, Uri)>): set<Uri> {
    if namespaces == [] then {}
    else
      var n := |namespaces| - 1;
      DeclaredUris(namespaces[..n]) + if namespaces[n].0.Some? then {namespaces[n].1} else {}
  }

  function AttributeUris(attributes: seq<Option<Uri>>): set<Uri> {
    if attributes == [] then {}
    else
      var n := |attributes| - 1;
      AttributeUris(attributes[..n]) + if attributes[n].Some? then {attributes[n].value} else {}
  }

  // The URIs mentioned in a document: declared with a prefix, or the
  // namespace of an attribute.
  function MentionedUris(elements: seq<Element>): set<Uri> {
    if elements == [] then {}
    else
      var n := |elements| - 1;
      MentionedUris(elements[..n]) + DeclaredUris(elements[n].namespaces) + AttributeUris(elements[n].attributes)
  }

  // The URIs that have a prefix: the two reserved ones and every mentioned one
  // but the PLCopen namespace, which is the default namespace.
  function Prefixed(elements: seq<Element>): set<Uri> {
    {XHTML_NS, XML_NS} + (MentionedUris(elements) - {PLCOPEN_NS})
  }

  lemma PrefixedNext(elements: seq<Element>, k: nat)
    requires k < |elements|
    ensures Prefixed(elements[..k + 1]) == Prefixed(elements[..k]) +
      (DeclaredUris(elements[k].namespaces) - {PLCOPEN_NS}) + (AttributeUris(elements[k].attributes) - {PLCOPEN_NS})
  {
    assert elements[..k + 1][..k] == elements[..k];
  }

  // One URI more, unless it has a prefix already or needs none.
  method WithPrefix(prefixes: map<Uri, Prefix>, uris: map<Prefix, Uri>, preferred: Prefix, uri: Uri)
    returns (prefixes': map<Uri, Prefix>, uris': map<Prefix, Uri>)
    requires Inverse(prefixes, uris) && Reserved(prefixes)
    ensures Inverse(prefixes', uris') && Reserved(prefixes')
    ensures prefixes'.Keys == prefixes.Keys + ({uri} - {PLCOPEN_NS})
    ensures forall u :: u in prefixes ==> prefixes'[u] == prefixes[u]
  {
    prefixes', uris' := prefixes, uris;
    if uri == PLCOPEN_NS || uri in prefixes { return; }
    var prefix := UniqueNamespacePrefix(preferred, uri, uris);
    FreshPrefix(prefixes, uris, uri, prefix);
    uris' := uris[prefix := uri];
    prefixes' := prefixes[uri := prefix];
  }

  method WithDeclared(prefixes: map<Uri, Prefix>, uris: map<Prefix, Uri>, namespaces: seq<(Option<Prefix>, Uri)>)
    returns (prefixes': map<Uri, Prefix>, uris': map<Prefix, Uri>)
    requires Inverse(prefixes, uris) && Reserved(prefixes)
    ensures Inverse(prefixes', uris') && Reserved(prefixes')
    ensures prefixes'.Keys == prefixes.Keys + (DeclaredUris(namespaces) - {PLCOPEN_NS})
  {
    prefixes', uris' := prefixes, uris;
    for n := 0 to |namespaces|
      invariant Inverse(prefixes', uris') && Reserved(prefixes')
      invariant prefixes'.Keys == prefixes.Keys + (DeclaredUris(namespaces[..n]) - {PLCOPEN_NS})
    {
      assert namespaces[..n + 1][..n] == namespaces[..n];
      if namespaces[n].0.Some? {
        prefixes', uris' := WithPrefix(prefixes', uris', namespaces[n].0.value, namespaces[n].1);
      }
    }
    assert namespaces[..|namespaces|] == namespaces;
  }

  method WithAttributes(prefixes: map<Uri, Prefix>, uris: map<Prefix, Uri>, attributes: seq<Option<Uri>>)
    returns (prefixes': map<Uri, Prefix>, uris': map<Prefix, Uri>)
    requires Inverse(prefixes, uris) && Reserved(prefixes)
    ensures Inverse(prefixes', uris') && Reserved(prefixes')
    ensures prefixes'.Keys == prefixes.Keys + (AttributeUris(attributes) - {PLCOPEN_NS})
  {
    prefixes', uris' := prefixes, uris;
    for n := 0 to |attributes|
      invariant Inverse(prefixes', uris') && Reserved(prefixes')
      invariant prefixes'.Keys == prefixes.Keys + (AttributeUris(attributes[..n]) - {PLCOPEN_NS})
    {
      assert attributes[..n + 1][..n] == attributes[..n];
      if attributes[n].Some? {
        prefixes', uris' := WithPrefix(prefixes', uris', "ns", attributes[n].value);
      }
    }
    assert attributes[..|attributes|] == attributes;
  }

  class XmlNamespaceRegistry {
    var prefixByUri: map<Uri, Prefix>
    ghost var uriByPrefix: map<Prefix, Uri>

    ghost predicate Valid()
      reads this
    {
      Inverse(prefixByUri, uriByPrefix) && Reserved(prefixByUri)
    }

    // Prefixes and URIs of any document correspond one to one, and exactly the
    // URIs it mentions (and the two reserved ones) have a prefix.
    constructor (elements: seq<Element>)
      ensures Valid()
      ensures prefixByUri.Keys == Prefixed(elements)
    {
      var prefixes := map[XHTML_NS := "xhtml", XML_NS := "xml"];
      var uris := map["xhtml" := XHTML_NS, "xml" := XML_NS];
      Distinct();
      for k := 0 to |elements|
        invariant Inverse(prefixes, uris) && Reserved(prefixes)
        invariant prefixes.Keys == Prefixed(elements[..k])
      {
        prefixes, uris := WithDeclared(prefixes, uris, elements[k].namespaces);
        prefixes, uris := WithAttributes(prefixes, uris, elements[k].attributes);
        PrefixedNext(elements, k);
      }
      assert elements[..|elements|] == elements;
      prefixByUri := prefixes;
      uriByPrefix := uris;
    }

    function PrefixForUri(uri: Uri): (prefix: Option<Prefix>)
      reads this
    {
      if uri == PLCOPEN_NS || uri !in prefixByUri then None else Some(prefixByUri[uri])
    }

    function QualifiedName(namespace: Option<Uri>, local: string): string
      reads this
    {
      var prefix := if namespace.Some? then PrefixForUri(namespace.value) else None;
      if prefix.Some? then prefix.value + ":" + local else local
    }

    // A name is written without prefix when it has no namespace that needs one.
    predicate Unprefixed(namespace: Option<Uri>)
      reads this
    {
      namespace.None? || PrefixForUri(namespace.value).None?
    }

    // Two expanded names are written alike exactly when their local names agree
    // and their namespaces do, or neither is written with a prefix.
    lemma QualifiedNamesAgree(a: Option<Uri>, la: string, b: Option<Uri>, lb: string)
      requires Valid()
      requires ':' !in la && ':' !in lb
      requires forall u :: u in prefixByUri ==> ':' !in prefixByUri[u]
      ensures QualifiedName(a, la) == QualifiedName(b, lb) <==>
        la == lb && (a == b || (Unprefixed(a) && Unprefixed(b)))
    {
      if !Unprefixed(a) && !Unprefixed(b) {
        var p, q := prefixByUri[a.value], prefixByUri[b.value];
        assert uriByPrefix[p] == a.value && uriByPrefix[q] == b.value;
        if p + ":" + la == q + ":" + lb { SplitAtColon(p, la, q, lb); }
      } else if !Unprefixed(a) {
        HasColon(prefixByUri[a.value], la);
      } else if !Unprefixed(b) {
        HasColon(prefixByUri[b.value], lb);
      }
    }
  }

  lemma Distinct()
    ensures XHTML_NS != XML_NS && PLCOPEN_NS != XHTML_NS && PLCOPEN_NS != XML_NS
  {
    assert XHTML_NS[15] != XML_NS[15] || XHTML_NS[18] != XML_NS[18] || |XHTML_NS| != |XML_NS|;
    assert PLCOPEN_NS[11] == 'p' && XHTML_NS[11] == 'w' && XML_NS[11] == 'w';
  }

  lemma HasColon(p: string, local: string)
    ensures ':' in p + ":" + local
  {
    assert (p + ":" + local)[|p|] == ':';
  }

  lemma SplitAtColon(p: string, la: string, q: string, lb: string)
    requires ':' !in p && ':' !in q && p + ":" + la == q + ":" + lb
    ensures p == q && la == lb
  {
    var s := p + ":" + la;
    assert s[|p|] == ':' && s[|q|] == ':';
    assert |p| == |q|;
    assert s[..|p|] == p && s[..|q|] == q;
    assert s[|p| + 1..] == la && s[|q| + 1..] == lb;
  }

  lemma FreshPrefix(prefixes: map<Uri, Prefix>, uris: map<Prefix, Uri>, uri: Uri, prefix: Prefix)
    requires Inverse(prefixes, uris) && uri !in prefixes
    requires prefix in uris ==> uris[prefix] == uri
    ensures prefix !in uris && Inverse(prefixes[uri := prefix], uris[prefix := uri])
  {
  }
}
