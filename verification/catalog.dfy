/** The keyword-to-template catalog and the lookup the handler performs on it. */
module Catalog {
  import opened Types
  import opened Keyword

  /** A list of (key, value) entries in order, as `Object.entries` yields
      them and `Object.fromEntries` consumes them. */
  type Entries = seq<(string, string)>

  /** The parsed catalog: (keyword, template) entries in `Object.entries` order. */
  type Catalog = Entries

  /** `loadAutomodMessages`: the parsed file is used as it is; a file that
      could not be read or parsed leaves a catalog that answers no keyword. */
  function Load(parsed: Option<Catalog>): (c: Catalog)
    ensures parsed.Some? ==> c == parsed.value
    ensures parsed.None? ==> forall keyword :: Lookup(c, keyword).None?
  {
    match parsed
    case Some(c) => c
    case None => []
  }

  /** Entry `i` is the last entry keyed `k`. */
  predicate IsLast(es: Entries, k: string, i: int) {
    && 0 <= i < |es|
    && es[i].0 == k
    && forall j :: i < j < |es| ==> es[j].0 != k
  }

  /** The value of the last entry keyed `k`, searching from the end. */
  function LastValue(es: Entries, k: string): Option<string>
    decreases |es|
  {
    if es == [] then None
    else if es[|es| - 1].0 == k then Some(es[|es| - 1].1)
    else LastValue(es[..|es| - 1], k)
  }

  /** The backwards search finds a value exactly when some entry has the
      key, and then finds the value of the last such entry. */
  lemma {:induction false} LastValueIsLastEntry(es: Entries, k: string)
    ensures LastValue(es, k).Some? <==> exists i :: 0 <= i < |es| && es[i].0 == k
    ensures forall i :: IsLast(es, k, i) ==> LastValue(es, k) == Some(es[i].1)
    decreases |es|
  {
    if es != [] {
      var init := es[..|es| - 1];
      LastValueIsLastEntry(init, k);
      assert forall j :: 0 <= j < |init| ==> init[j] == es[j];
      if es[|es| - 1].0 != k {
        forall i | IsLast(es, k, i)
          ensures IsLast(init, k, i)
        {
        }
      }
    }
  }

  /** `Object.fromEntries`: entries are stored in order, so a later entry
      overwrites an earlier one with the same key. */
  function FromEntries(es: Entries): (t: map<string, string>)
    ensures forall k :: k in t <==> LastValue(es, k).Some?
    ensures forall k :: k in t ==> t[k] == LastValue(es, k).value
    decreases |es|
  {
    if es == [] then map[]
    else FromEntries(es[..|es| - 1])[es[|es| - 1].0 := es[|es| - 1].1]
  }

  /** Normalises every key, keeping each template and the entry order. */
  function NormalizeKeys(c: Catalog): (es: Entries)
    ensures |es| == |c|
    ensures forall i :: 0 <= i < |c| ==> es[i] == (Normalize(c[i].0), c[i].1)
    decreases |c|
  {
    if c == [] then [] else [(Normalize(c[0].0), c[0].1)] + NormalizeKeys(c[1..])
  }

  /** Entry `i` is the last catalog entry whose key normalises to `k`. */
  predicate IsLastFor(c: Catalog, k: string, i: int) {
    && 0 <= i < |c|
    && Normalize(c[i].0) == k
    && forall j :: i < j < |c| ==> Normalize(c[j].0) != k
  }

  /** The normalised table holds `k` exactly when some catalog key
      normalises to `k`, and maps it to the template of the last such entry. */
  lemma TableIsLastMatch(c: Catalog, k: string)
    ensures k in FromEntries(NormalizeKeys(c)) <==> exists i :: 0 <= i < |c| && Normalize(c[i].0) == k
    ensures forall i :: IsLastFor(c, k, i) ==> k in FromEntries(NormalizeKeys(c))
                                               && FromEntries(NormalizeKeys(c))[k] == c[i].1
  {
    var es := NormalizeKeys(c);
    LastValueIsLastEntry(es, k);
    forall i | IsLastFor(c, k, i)
      ensures IsLast(es, k, i)
    {
    }
    if k in FromEntries(es) {
      var i :| 0 <= i < |es| && es[i].0 == k;
      assert Normalize(c[i].0) == k;
    }
  }

  /** `normalizedMessages[normalizeKeyword(keyword)]`, reading only the
      table's own entries: a template is found exactly when some catalog key
      normalises like `keyword`, and it is the template of the last such
      entry. */
  function Lookup(c: Catalog, keyword: string): (r: Option<string>)
    ensures r.Some? <==> exists i :: 0 <= i < |c| && Normalize(c[i].0) == Normalize(keyword)
    ensures forall i :: IsLastFor(c, Normalize(keyword), i) ==> r == Some(c[i].1)
  {
    var t := FromEntries(NormalizeKeys(c));
    var k := Normalize(keyword);
    TableIsLastMatch(c, k);
    if k in t then Some(t[k]) else None
  }

  /** Whenever some key matches, one of the matching entries is the last. */
  lemma {:induction false} LastForExists(c: Catalog, k: string, i: int)
    requires 0 <= i < |c| && Normalize(c[i].0) == k
    ensures exists l :: IsLastFor(c, k, l)
    decreases |c| - i
  {
    if !IsLastFor(c, k, i) {
      var j :| i < j < |c| && Normalize(c[j].0) == k;
      LastForExists(c, k, j);
    }
  }

  /** Looking up a keyword or its normal form gives the same template. */
  lemma LookupIgnoresCaseAndSpace(c: Catalog, keyword: string)
    ensures Lookup(c, Normalize(keyword)) == Lookup(c, keyword)
  {
    NormalizeIdempotent(keyword);
  }

  /** The lower-case names every plain JavaScript object inherits from
      `Object.prototype`; a normalised keyword can only hit these two. */
  const InheritedNames: set<string> := {"constructor", "__proto__"}

  /** What property access on the normalised table yields. */
  datatype Property = Own(value: string) | Inherited | Missing

  /** `normalizedMessages[keyword]` as the source evaluates it: own entries
      first, then names inherited through the prototype chain. */
  function PropertyLookup(c: Catalog, keyword: string): (r: Property)
    ensures r.Own? <==> exists i :: 0 <= i < |c| && Normalize(c[i].0) == Normalize(keyword)
    ensures forall i :: IsLastFor(c, Normalize(keyword), i) ==> r == Own(c[i].1)
    ensures r.Inherited? <==> && Normalize(keyword) in InheritedNames
                              && forall i :: 0 <= i < |c| ==> Normalize(c[i].0) != Normalize(keyword)
  {
    match Lookup(c, keyword)
    case Some(template) => Own(template)
    case None => if Normalize(keyword) in InheritedNames then Inherited else Missing
  }
}
