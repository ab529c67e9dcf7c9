/**
 * The attribute map `createHtmlHelp` builds on the `div` of one source image's
 * fragment (Main.kt lines 77-95). The markup serialization itself is not modelled.
 */
module HtmlHelp {
  import opened Wrappers
  import opened KotlinText
  import opened Jobs

  /** Image dimensions read from a jpg's metadata. */
  datatype Dims = Dims(width: int, height: int)

  /** One generated variant: its jpg and webp outputs and the jpg's dimensions, when readable. */
  datatype Variant = Variant(jpg: FilePath, webp: FilePath, dims: Option<Dims>)

  /** The URL prefix put in front of every output file name. */
  const ImgPrefix := "/img/"

  /** The placeholder alt text. */
  const AltText := ">>> Alternativtext <<<"

  /** The attributes every fragment carries, whatever its variants. */
  const FixedKeys: set<string> := {"class", "data-alt", "data-sizes"}

  /** The attribute name `data-$idx` of the variant at `idx`. */
  function DataKey(idx: nat): string
  {
    "data-" + IntToString(idx)
  }

  /** The JSON object describing one variant: both file URLs and the jpg's dimensions. */
  function VariantJson(v: Variant, d: Dims): string
  {
    "{\"jpg\":\"" + ImgPrefix + v.jpg.name + "\",\"webp\":\"" + ImgPrefix + v.webp.name
      + "\",\"w\":" + IntToString(d.width) + ",\"h\":" + IntToString(d.height) + "}"
  }

  /** Different indices give different attribute names. */
  lemma DataKeyInjective(i: nat, j: nat)
    requires DataKey(i) == DataKey(j)
    ensures i == j
  {
    assert IntToString(i) == DataKey(i)[5..];
    assert IntToString(j) == DataKey(j)[5..];
    IntToStringInjective(i, j);
  }

  /** An index attribute never overwrites one of the fixed attributes. */
  lemma DataKeyNotFixed(i: nat)
    ensures DataKey(i) !in FixedKeys
  {
    var k := DataKey(i);
    assert k[5] == IntToString(i)[0];
    assert "data-alt"[5] == 'a' && "data-sizes"[5] == 's' && "class"[0] == 'c';
  }

  /** `m` holds `data-$idx` exactly for the variants of `vs` with known dimensions. */
  ghost predicate PresentExactly(vs: seq<Variant>, m: map<string, string>)
  {
    forall i :: 0 <= i < |vs| ==> (DataKey(i) in m <==> vs[i].dims.Some?)
  }

  /** Each `data-$idx` of `m` holds the JSON of its variant. */
  ghost predicate ValuesAre(vs: seq<Variant>, m: map<string, string>)
  {
    forall i :: 0 <= i < |vs| && vs[i].dims.Some? ==> DataKey(i) in m && m[DataKey(i)] == VariantJson(vs[i], vs[i].dims.value)
  }

  /** Every name in `m` is the `data-$idx` of a variant of `vs` with known dimensions. */
  ghost predicate OnlyIndexed(vs: seq<Variant>, m: map<string, string>)
  {
    forall k :: k in m ==> exists i :: 0 <= i < |vs| && vs[i].dims.Some? && k == DataKey(i)
  }

  /** `m` holds `data-$idx` exactly for the variants of `vs` with known dimensions, each with its JSON. */
  ghost predicate IndexedFor(vs: seq<Variant>, m: map<string, string>)
  {
    PresentExactly(vs, m) && ValuesAre(vs, m) && OnlyIndexed(vs, m)
  }

  /** Index attribute names below `n` differ from the one at `n`. */
  lemma EarlierDataKeysDiffer(n: nat)
    ensures forall i :: 0 <= i < n ==> DataKey(i) != DataKey(n)
  {
    forall i | 0 <= i < n
      ensures DataKey(i) != DataKey(n)
    {
      if DataKey(i) == DataKey(n) {
        DataKeyInjective(i, n);
      }
    }
  }

  /** The name of the next index is not yet taken. */
  lemma NextDataKeyFree(vs: seq<Variant>, m: map<string, string>)
    requires OnlyIndexed(vs, m)
    requires forall i :: 0 <= i < |vs| ==> DataKey(i) != DataKey(|vs|)
    ensures DataKey(|vs|) !in m
  {
  }

  lemma IndexedStepPresence(vs: seq<Variant>, v: Variant, m: map<string, string>)
    requires PresentExactly(vs, m)
    requires forall i :: 0 <= i < |vs| ==> DataKey(i) != DataKey(|vs|)
    requires DataKey(|vs|) !in m
    ensures PresentExactly(vs + [v], if v.dims.Some? then m[DataKey(|vs|) := VariantJson(v, v.dims.value)] else m)
  {
    var vs' := vs + [v];
    var m' := if v.dims.Some? then m[DataKey(|vs|) := VariantJson(v, v.dims.value)] else m;
    forall i | 0 <= i < |vs'|
      ensures DataKey(i) in m' <==> vs'[i].dims.Some?
    {
      if i < |vs| {
        assert vs'[i] == vs[i];
      } else {
        assert vs'[i] == v;
      }
    }
  }

  lemma IndexedStepValues(vs: seq<Variant>, v: Variant, m: map<string, string>)
    requires ValuesAre(vs, m)
    requires forall i :: 0 <= i < |vs| ==> DataKey(i) != DataKey(|vs|)
    ensures ValuesAre(vs + [v], if v.dims.Some? then m[DataKey(|vs|) := VariantJson(v, v.dims.value)] else m)
  {
    var vs' := vs + [v];
    var m' := if v.dims.Some? then m[DataKey(|vs|) := VariantJson(v, v.dims.value)] else m;
    forall i | 0 <= i < |vs'| && vs'[i].dims.Some?
      ensures DataKey(i) in m' && m'[DataKey(i)] == VariantJson(vs'[i], vs'[i].dims.value)
    {
      if i < |vs| {
        assert vs'[i] == vs[i];
      } else {
        assert vs'[i] == v;
      }
    }
  }

  lemma IndexedStepOnly(vs: seq<Variant>, v: Variant, m: map<string, string>)
    requires OnlyIndexed(vs, m)
    ensures OnlyIndexed(vs + [v], if v.dims.Some? then m[DataKey(|vs|) := VariantJson(v, v.dims.value)] else m)
  {
    var n := |vs|;
    var vs' := vs + [v];
    var m' := if v.dims.Some? then m[DataKey(n) := VariantJson(v, v.dims.value)] else m;
    forall k | k in m'
      ensures exists i :: 0 <= i < |vs'| && vs'[i].dims.Some? && k == DataKey(i)
    {
      if k in m {
        var i :| 0 <= i < |vs| && vs[i].dims.Some? && k == DataKey(i);
        assert vs'[i] == vs[i];
      } else {
        assert vs'[n] == v;
      }
    }
  }

  /** Visiting one more variant keeps the index attributes exact. */
  lemma IndexedStep(vs: seq<Variant>, v: Variant, m: map<string, string>)
    requires IndexedFor(vs, m)
    ensures IndexedFor(vs + [v], if v.dims.Some? then m[DataKey(|vs|) := VariantJson(v, v.dims.value)] else m)
  {
    EarlierDataKeysDiffer(|vs|);
    NextDataKeyFree(vs, m);
    IndexedStepPresence(vs, v, m);
    IndexedStepValues(vs, v, m);
    IndexedStepOnly(vs, v, m);
  }

  /**
   * The `data-$idx` attributes written by `outFiles.forEachIndexed`: one for each
   * variant whose dimensions are known, none for the others.
   */
  function IndexedAttributes(vs: seq<Variant>): (m: map<string, string>)
    ensures IndexedFor(vs, m)
  {
    if vs == [] then map[]
    else
      var n := |vs| - 1;
      var m := IndexedAttributes(vs[..n]);
      assert vs == vs[..n] + [vs[n]];
      IndexedStep(vs[..n], vs[n], m);
      match vs[n].dims
      case Some(d) => m[DataKey(n) := VariantJson(vs[n], d)]
      case None => m
  }

  /** The attributes written before the variants are visited. */
  function FixedAttributes(n: nat): map<string, string>
  {
    map["class" := "lazy", "data-alt" := AltText, "data-sizes" := IntToString(n)]
  }

  /** No index attribute name is one of the fixed ones. */
  lemma IndexedAvoidsFixed(vs: seq<Variant>, m: map<string, string>)
    requires IndexedFor(vs, m)
    ensures forall k :: k in m ==> k !in FixedKeys
  {
    forall k | k in m
      ensures k !in FixedKeys
    {
      var i :| 0 <= i < |vs| && vs[i].dims.Some? && k == DataKey(i);
      DataKeyNotFixed(i);
    }
  }

  lemma UnionKeepsFixed(n: nat, m: map<string, string>)
    requires forall k :: k in m ==> k !in FixedKeys
    ensures var r := FixedAttributes(n) + m;
            && "class" in r && r["class"] == "lazy"
            && "data-alt" in r && r["data-alt"] == AltText
            && "data-sizes" in r && r["data-sizes"] == IntToString(n)
  {
  }

  lemma UnionKeepsIndexed(vs: seq<Variant>, m: map<string, string>)
    requires IndexedFor(vs, m)
    ensures var r := FixedAttributes(|vs|) + m;
            && (forall i :: 0 <= i < |vs| ==> (DataKey(i) in r <==> vs[i].dims.Some?))
            && (forall i :: 0 <= i < |vs| && vs[i].dims.Some? ==> r[DataKey(i)] == VariantJson(vs[i], vs[i].dims.value))
  {
    forall i | 0 <= i < |vs|
      ensures DataKey(i) !in FixedKeys
    {
      DataKeyNotFixed(i);
    }
  }

  lemma UnionAddsNothingElse(vs: seq<Variant>, m: map<string, string>)
    requires IndexedFor(vs, m)
    ensures var r := FixedAttributes(|vs|) + m;
            forall k :: k in r ==> k in FixedKeys || exists i :: 0 <= i < |vs| && vs[i].dims.Some? && k == DataKey(i)
  {
  }

  /**
   * The attributes of one fragment's `div("lazy")`: its class, the alt text, the number
   * of variants (also those without dimensions), and `data-$idx` exactly for the
   * indices whose dimensions are known.
   */
  function Attributes(vs: seq<Variant>): (r: map<string, string>)
    ensures "class" in r && r["class"] == "lazy"
    ensures "data-alt" in r && r["data-alt"] == AltText
    ensures "data-sizes" in r && r["data-sizes"] == IntToString(|vs|)
    ensures forall i :: 0 <= i < |vs| ==> (DataKey(i) in r <==> vs[i].dims.Some?)
    ensures forall i :: 0 <= i < |vs| && vs[i].dims.Some? ==> r[DataKey(i)] == VariantJson(vs[i], vs[i].dims.value)
    ensures forall k :: k in r ==> k in FixedKeys || exists i :: 0 <= i < |vs| && vs[i].dims.Some? && k == DataKey(i)
  {
    var indexed := IndexedAttributes(vs);
    IndexedAvoidsFixed(vs, indexed);
    UnionKeepsFixed(|vs|, indexed);
    UnionKeepsIndexed(vs, indexed);
    UnionAddsNothingElse(vs, indexed);
    FixedAttributes(|vs|) + indexed
  }

  /** A reader of the fragment recovers the number of variants from `data-sizes`. */
  lemma DataSizesReadsBack(vs: seq<Variant>)
    ensures ParseInt(Attributes(vs)["data-sizes"]) == |vs|
  {
    IntToStringRoundTrip(|vs|);
  }
}
