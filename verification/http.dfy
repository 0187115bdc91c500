/** The slice of ASP.NET Core's request surface that the gate reads:
    `StringValues`, the case-insensitive header and query dictionaries, and
    the per-request item bag, gathered into an immutable `HttpContext`. */
module Http {
  import opened Wrappers
  import Text

  /** `StringValues`: the values of one header or query parameter, in order.
      An absent entry is the empty sequence. */
  type StringValues = seq<string>

  /** `StringValues.FirstOrDefault()`: the first value, or null when there
      is none. */
  function FirstOrDefault(values: StringValues): (first: Option<string>)
    ensures first.None? <==> values == []
    ensures first.Some? ==> first.value == values[0]
  {
    if |values| == 0 then None else Some(values[0])
  }

  /** The values that are not empty, in their original order. */
  function NonEmpty(values: StringValues): (kept: StringValues)
    ensures forall v :: v in kept <==> v in values && v != ""
    ensures multiset(kept) == multiset(values)["" := 0]
    ensures |kept| <= |values|
    ensures (forall i :: 0 <= i < |values| ==> values[i] != "") ==> kept == values
    decreases |values|
  {
    if |values| == 0 then []
    else
      assert values == [values[0]] + values[1..];
      if values[0] == "" then NonEmpty(values[1..])
      else [values[0]] + NonEmpty(values[1..])
  }

  /** Filtering distributes over concatenation, so the kept values stay in
      their original order. */
  lemma {:induction false} NonEmptyAppend(a: StringValues, b: StringValues)
    ensures NonEmpty(a + b) == NonEmpty(a) + NonEmpty(b)
    decreases |a|
  {
    if |a| == 0 {
      assert a + b == b;
    } else {
      assert (a + b)[0] == a[0];
      assert (a + b)[1..] == a[1..] + b;
      NonEmptyAppend(a[1..], b);
      if a[0] != "" {
        assert [a[0]] + (NonEmpty(a[1..]) + NonEmpty(b)) == ([a[0]] + NonEmpty(a[1..])) + NonEmpty(b);
      }
    }
  }

  /** Joins parts with a comma between each two. */
  function JoinWithCommas(parts: seq<string>): (s: string)
    ensures parts == [] ==> s == ""
    ensures |parts| == 1 ==> s == parts[0]
    ensures |parts| >= 2 ==> ',' in s
    decreases |parts|
  {
    if |parts| == 0 then ""
    else if |parts| == 1 then parts[0]
    else parts[0] + "," + JoinWithCommas(parts[1..])
  }

  /** Cuts text at every comma. */
  function Split(s: string): (parts: seq<string>)
    ensures |parts| >= 1
    decreases |s|
  {
    if |s| == 0 then [""]
    else
      var rest := Split(s[1..]);
      if s[0] == ',' then [""] + rest
      else [[s[0]] + rest[0]] + rest[1..]
  }

  /** Text without a comma is a single part. */
  lemma {:induction false} SplitCommaFree(p: string)
    requires ',' !in p
    ensures Split(p) == [p]
    decreases |p|
  {
    if |p| > 0 {
      assert ',' !in p[1..] by {
        assert forall c :: c in p[1..] ==> c in p;
      }
      SplitCommaFree(p[1..]);
      assert [p[0]] + p[1..] == p;
    }
  }

  /** A comma-free part followed by a comma splits off as the first part. */
  lemma {:induction false} SplitAfterPart(p: string, t: string)
    requires ',' !in p
    ensures Split(p + "," + t) == [p] + Split(t)
    decreases |p|
  {
    var s := p + "," + t;
    if |p| == 0 {
      assert s[1..] == t;
    } else {
      assert s[0] == p[0];
      assert s[1..] == p[1..] + "," + t;
      assert ',' !in p[1..] by {
        assert forall c :: c in p[1..] ==> c in p;
      }
      SplitAfterPart(p[1..], t);
      assert [p[0]] + p[1..] == p;
    }
  }

  /** Splitting at commas undoes joining with commas, as long as no part
      contains a comma itself. */
  lemma {:induction false} SplitJoinRoundTrip(parts: seq<string>)
    requires |parts| >= 1
    requires forall i :: 0 <= i < |parts| ==> ',' !in parts[i]
    ensures Split(JoinWithCommas(parts)) == parts
    decreases |parts|
  {
    if |parts| == 1 {
      SplitCommaFree(parts[0]);
    } else {
      SplitJoinRoundTrip(parts[1..]);
      SplitAfterPart(parts[0], JoinWithCommas(parts[1..]));
      assert [parts[0]] + parts[1..] == parts;
    }
  }

  /** `StringValues.ToString()`. A single value is returned as it is, even
      when empty. Otherwise the empty values are skipped and the rest are
      joined with commas, so no value at all renders as "". */
  function ToString(values: StringValues): (s: string)
    ensures values == [] ==> s == ""
    ensures |values| == 1 ==> s == values[0]
    ensures |values| >= 2 && NonEmpty(values) == [] ==> s == ""
    ensures |values| >= 2 && |NonEmpty(values)| == 1 ==> s == NonEmpty(values)[0]
    ensures |NonEmpty(values)| >= 2 ==> ',' in s
  {
    if |values| == 1 then values[0] else JoinWithCommas(NonEmpty(values))
  }

  /** When no value contains a comma, the rendering of several values is
      lossless: cutting it at the commas gives back the non-empty values. */
  lemma ToStringRoundTrip(values: StringValues)
    requires forall i :: 0 <= i < |values| ==> ',' !in values[i]
    requires |values| >= 2 && NonEmpty(values) != []
    ensures Split(ToString(values)) == NonEmpty(values)
  {
    var kept := NonEmpty(values);
    forall i | 0 <= i < |kept|
      ensures ',' !in kept[i]
    {
      assert kept[i] in kept;
    }
    SplitJoinRoundTrip(kept);
  }

  /** A header dictionary or query collection. Both look names up ignoring
      case; the model stores every entry under its case-folded name, so a
      dictionary built by `Set` is `Folded`. An entry under a name that is
      not folded has no ASP.NET counterpart and is never found by `Get`. */
  type Dictionary = map<string, StringValues>

  /** Every name is stored in its case-folded form. */
  predicate Folded(d: Dictionary) {
    forall k :: k in d ==> k == Text.Fold(k)
  }

  /** `Set` keeps a dictionary folded. */
  lemma SetKeepsFolded(d: Dictionary, name: string, values: StringValues)
    requires Folded(d)
    ensures Folded(Set(d, name, values))
  {
  }

  /** The indexer `dictionary[name]`: the values stored under the name, or
      no values when the name is absent. */
  function Get(d: Dictionary, name: string): (values: StringValues)
    ensures Text.Fold(name) !in d ==> values == []
    ensures Text.Fold(name) in d ==> values == d[Text.Fold(name)]
  {
    if Text.Fold(name) in d then d[Text.Fold(name)] else []
  }

  /** Stores values under a name, replacing any entry whose name is equal
      ignoring case. */
  function Set(d: Dictionary, name: string, values: StringValues): Dictionary {
    d[Text.Fold(name) := values]
  }

  /** Lookup ignores the case of the name: names equal ignoring case see
      the same values. */
  lemma GetIgnoresNameCase(d: Dictionary, a: string, b: string)
    requires Text.EqualsIgnoreCase(a, b)
    ensures Get(d, a) == Get(d, b)
  {
    Text.EqualsIgnoreCaseIsFoldedEquality(a, b);
  }

  /** After `Set`, a lookup under a name equal ignoring case returns the
      values just stored, and a lookup under any other name is unchanged. */
  lemma GetAfterSet(d: Dictionary, name: string, values: StringValues, other: string)
    ensures Text.EqualsIgnoreCase(name, other) ==> Get(Set(d, name, values), other) == values
    ensures !Text.EqualsIgnoreCase(name, other) ==> Get(Set(d, name, values), other) == Get(d, other)
  {
    Text.EqualsIgnoreCaseIsFoldedEquality(name, other);
  }

  /** Keys of `HttpContext.Items`. The marker written by the BFF middleware
      is distinguished; every other key is opaque to the gate. */
  datatype ItemKey = BffMiddlewareMarker | OtherItem(name: string)

  /** Values of `HttpContext.Items`: opaque objects, possibly null. */
  datatype ItemValue = NullItem | ObjectItem(id: nat)

  /** The request as the gate sees it. */
  datatype HttpContext = HttpContext(
    headers: Dictionary,
    query: Dictionary,
    items: map<ItemKey, ItemValue>)
}
