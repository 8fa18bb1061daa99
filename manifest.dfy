/**
  The manifest handler's logic (src/handlers/manifest.rs): the orders taken
  out of a Cargo manifest's `package.metadata` TOML value, their text, the
  keyword check, and the builder of the handler's state.
 */
module Manifest {
  import opened Wrappers
  import opened Numeric

  const I64_MIN: int := -0x8000_0000_0000_0000
  const I64_MAX: int := 0x7FFF_FFFF_FFFF_FFFF

  /** Rust's `i64`, the integer type of a TOML value. */
  type i64 = x: int | I64_MIN <= x <= I64_MAX

  /**
    `toml::Value`. A float is kept as a real number and a date-time as its
    text; neither is read here.
   */
  datatype Value =
    | String(s: string)
    | Integer(i: i64)
    | Float(f: real)
    | Boolean(b: bool)
    | Datetime(text: string)
    | Array(elements: seq<Value>)
    | Table(entries: map<string, Value>)

  datatype ProperOrder = ProperOrder(item: string, quantity: u32)

  /** `u32::try_from(i64)`: the value when it is in range, nothing otherwise. */
  function U32TryFrom(n: i64): (r: Option<u32>)
    ensures r.Some? <==> 0 <= n <= U32_MAX
    ensures r.Some? ==> r.value == n
  {
    if 0 <= n <= U32_MAX then Some(n) else None
  }

  /** The closure `from_value` filters with: a table with a string `item` and a `u32` `quantity`. */
  function AsOrder(v: Value): (r: Option<ProperOrder>)
    ensures r.Some? <==>
              && v.Table?
              && "item" in v.entries && v.entries["item"].String?
              && "quantity" in v.entries && v.entries["quantity"].Integer?
              && 0 <= v.entries["quantity"].i <= U32_MAX
    ensures r.Some? ==> r.value.item == v.entries["item"].s && r.value.quantity == v.entries["quantity"].i
  {
    if !v.Table? then None
    else if "item" !in v.entries || !v.entries["item"].String? then None
    else if "quantity" !in v.entries || !v.entries["quantity"].Integer? then None
    else
      match U32TryFrom(v.entries["quantity"].i)
      case None => None
      case Some(q) => Some(ProperOrder(v.entries["item"].s, q))
  }

  /** Each entry read by `AsOrder`, position by position. */
  function Parsed(vs: seq<Value>): (ps: seq<Option<ProperOrder>>)
    ensures |ps| == |vs| && forall i :: 0 <= i < |vs| ==> ps[i] == AsOrder(vs[i])
  {
    seq(|vs|, i requires 0 <= i < |vs| => AsOrder(vs[i]))
  }

  /** `filter_map(AsOrder)` collected into a vector. */
  function Orders(vs: seq<Value>): (os: seq<ProperOrder>)
    ensures |os| <= |vs|
  {
    Somes(Parsed(vs))
  }

  /** The positions of the entries that are orders, in increasing order. */
  function Kept(vs: seq<Value>): (ks: seq<nat>)
    ensures forall k :: 0 <= k < |ks| ==> ks[k] < |vs| && AsOrder(vs[ks[k]]).Some?
    ensures forall k, l :: 0 <= k < l < |ks| ==> ks[k] < ks[l]
  {
    SomePositions(Parsed(vs))
  }

  /** Every entry that reads as an order is kept. */
  lemma KeptComplete(vs: seq<Value>)
    ensures forall i :: 0 <= i < |vs| && AsOrder(vs[i]).Some? ==> i in Kept(vs)
  {
    SomePositionsComplete(Parsed(vs));
  }

  /**
    The orders are exactly the entries that are orders, each read as an
    order, in their original order: entries that are not are dropped.
   */
  lemma OrdersAreKeptEntries(vs: seq<Value>)
    ensures var ks := Kept(vs);
            && |Orders(vs)| == |ks|
            && forall k :: 0 <= k < |ks| ==> Orders(vs)[k] == AsOrder(vs[ks[k]]).value
  {
    SomesAtPositions(Parsed(vs));
  }

  /** Filtering a concatenation filters each part. */
  lemma OrdersOfConcat(a: seq<Value>, b: seq<Value>)
    ensures Orders(a + b) == Orders(a) + Orders(b)
  {
    assert Parsed(a + b) == Parsed(a) + Parsed(b);
    SomesOfConcat(Parsed(a), Parsed(b));
  }

  /** `ProperOrder::from_value`. */
  function FromValue(v: Value): (r: Option<seq<ProperOrder>>)
    ensures r.None? <==> !v.Table? || "orders" !in v.entries || !v.entries["orders"].Array?
    ensures r.Some? ==> |r.value| == |Kept(v.entries["orders"].elements)|
    ensures r.Some? ==> var es := v.entries["orders"].elements;
                        forall k :: 0 <= k < |r.value| ==> r.value[k] == AsOrder(es[Kept(es)[k]]).value
  {
    if !v.Table? || "orders" !in v.entries || !v.entries["orders"].Array? then None
    else
      var es := v.entries["orders"].elements;
      OrdersAreKeptEntries(es);
      Some(Orders(es))
  }

  /** `Display`: `item: quantity`. */
  function OrderText(o: ProperOrder): (s: string)
    ensures |s| > |o.item| + 2 && s[..|o.item| + 2] == o.item + ": "
    ensures var ds := s[|o.item| + 2..];
            && (forall i :: 0 <= i < |ds| ==> IsDecimalDigit(ds[i]))
            && (|ds| > 1 ==> ds[0] != '0')
            && DecimalValue(ds) == o.quantity
  {
    var s := o.item + ": " + NatToString(o.quantity);
    assert s[|o.item| + 2..] == NatToString(o.quantity);
    DecimalRoundTrip(o.quantity);
    s
  }

  /** `State`: the keyword the manifest must carry. */
  datatype State = State(manifestKeyword: string)

  /** `Builder`: the keyword, once set. */
  datatype Builder = Builder(manifestKeyword: Option<string>)
  {
    /** `set_manifest_keyword`. */
    function SetManifestKeyword(value: Option<string>): (b: Builder)
      ensures b.manifestKeyword == value
    {
      Builder(value)
    }

    /** `manifest_keyword`. */
    function ManifestKeyword(value: string): (b: Builder)
      ensures b.manifestKeyword == Some(value)
    {
      Builder(Some(value))
    }

    /** `build`: fails exactly when no keyword was set. */
    function Build(): (r: Result<State, string>)
      ensures r.Ok? <==> manifestKeyword.Some?
      ensures r.Ok? ==> r.value.manifestKeyword == manifestKeyword.value
      ensures r.Err? ==> r.error == "manifest_keyword not set"
    {
      match manifestKeyword
      case None => Err("manifest_keyword not set")
      case Some(k) => Ok(State(k))
    }
  }

  /** `Builder::new` (the derived `Default`). */
  function NewBuilder(): (b: Builder)
    ensures b.Build().Err?
  {
    Builder(None)
  }

  /** The builder keeps the last keyword it was given. */
  lemma LastKeywordWins(b: Builder, first: string, second: string)
    ensures b.ManifestKeyword(first).ManifestKeyword(second).Build() == Ok(State(second))
    ensures b.ManifestKeyword(first).SetManifestKeyword(None).Build().Err?
  {
  }

  /** `cargo_manifest::MaybeInherited`: a value given in place, or inherited from the workspace. */
  datatype MaybeInherited<T> = Local(value: T) | Inherited

  datatype Package = Package(keywords: Option<MaybeInherited<seq<string>>>)

  /** The part of `cargo_manifest::Manifest` the check reads. */
  datatype CargoManifest = CargoManifest(package: Option<Package>)

  /** `manifest_key_included`: inherited keywords are not looked up, and count as absent. */
  function ManifestKeyIncluded(state: State, manifest: CargoManifest): (r: bool)
    ensures r <==> && manifest.package.Some?
                   && manifest.package.value.keywords.Some?
                   && manifest.package.value.keywords.value.Local?
                   && state.manifestKeyword in manifest.package.value.keywords.value.value
  {
    if manifest.package.None? then false
    else
      match manifest.package.value.keywords
      case None => false
      case Some(Inherited) => false
      case Some(Local(ks)) => state.manifestKeyword in ks
  }

}
