/** `extract_core_metadata_sentinel` (pyscripts/core_metadata.py, lines
    44-95): the subset of a SNAP metadata mapping kept for foundation
    models. Only a fixed list of sixteen keys is kept, in the list's order,
    and byte-string values are decoded as UTF-8. */
module CoreMetadata {
  import opened Wrappers
  import opened Utf8

  /** An attribute value as h5py hands it over. `Bytes` stands for both
      `bytes` and `bytearray`; `Array` is any other container, whose
      elements are never decoded. */
  datatype Attr =
    | Bytes(data: seq<byte>)
    | Text(s: string)
    | Int(i: int)
    | Float(r: real)
    | Bool(b: bool)
    | Null
    | Array(items: seq<Attr>)

  /** `UnicodeDecodeError` from a byte value that is not UTF-8. */
  datatype MetaError = UnicodeDecodeError(key: string)

  /** The keys kept, in the order of the list in the source. */
  const CoreKeys: seq<string> := [
    "MISSION",
    "ACQUISITION_MODE",
    "PRODUCT_TYPE",
    "radar_frequency",
    "pulse_repetition_frequency",
    "range_spacing",
    "azimuth_spacing",
    "range_bandwidth",
    "azimuth_bandwidth",
    "antenna_pointing",
    "PASS",
    "avg_scene_height",
    "PRODUCT",
    "mds1_tx_rx_polar",
    "mds2_tx_rx_polar",
    "first_line_time"
  ]

  /** `_decode`: byte strings become text, everything else stays as it is. */
  function DecodeAttr(v: Attr): (r: Option<Attr>)
    ensures r.Some? ==> Settled(r.value)
    ensures !v.Bytes? ==> r == Some(v)
    ensures v.Bytes? ==> (r.Some? <==> Decode(v.data).Some?)
    ensures v.Bytes? && r.Some? ==> r.value.Text? && Encode(r.value.s) == v.data
  {
    if v.Bytes? then
      match Decode(v.data)
      case None => None
      case Some(s) =>
        EncodeDecode(v.data);
        Some(Text(s))
    else Some(v)
  }

  /** The dictionary comprehension over `keys`: one entry per key present
      in `md`, in the order of `keys`. */
  function Collect(keys: seq<string>, md: map<string, Attr>): (r: Result<seq<(string, Attr)>, MetaError>)
    ensures r.Ok? ==>
      |r.value| <= |keys| &&
      forall i :: 0 <= i < |r.value| ==> r.value[i].0 in keys && r.value[i].0 in md && Settled(r.value[i].1)
    decreases |keys|
  {
    if |keys| == 0 then Ok([])
    else
      var k := keys[0];
      if k in md then
        match DecodeAttr(md[k])
        case None => Err(UnicodeDecodeError(k))
        case Some(v) =>
          var rest :- Collect(keys[1..], md);
          Ok([(k, v)] + rest)
      else Collect(keys[1..], md)
  }

  /** What the function returns: the entries of the dictionary in
      insertion order, or the error that the comprehension raises. */
  function ExtractCoreMetadata(md: map<string, Attr>): (r: Result<seq<(string, Attr)>, MetaError>)
    ensures r.Ok? ==>
      |r.value| <= 16 &&
      forall i :: 0 <= i < |r.value| ==> r.value[i].0 in CoreKeys && r.value[i].0 in md && Settled(r.value[i].1)
  {
    Collect(CoreKeys, md)
  }

  // ----- reference definitions -----

  /** `[k for k in keys if k in md]`. */
  function Present(keys: seq<string>, md: map<string, Attr>): (r: seq<string>)
    ensures forall k :: k in r <==> k in keys && k in md
    decreases |keys|
  {
    if |keys| == 0 then []
    else if keys[0] in md then [keys[0]] + Present(keys[1..], md)
    else Present(keys[1..], md)
  }

  function KeysOf(entries: seq<(string, Attr)>): (r: seq<string>)
    ensures |r| == |entries| && forall i :: 0 <= i < |r| ==> r[i] == entries[i].0
    decreases |entries|
  {
    if |entries| == 0 then [] else [entries[0].0] + KeysOf(entries[1..])
  }

  /** The dictionary the entries make up. On a repeated key the first entry
      wins here, where a Python dict keeps the last; the entries compared
      with it always have distinct keys, so the two agree. */
  function ToMap(entries: seq<(string, Attr)>): map<string, Attr>
    decreases |entries|
  {
    if |entries| == 0 then map[] else ToMap(entries[1..])[entries[0].0 := entries[0].1]
  }

  predicate Distinct(keys: seq<string>) {
    forall i, j :: 0 <= i < j < |keys| ==> keys[i] != keys[j]
  }

  /** A value `_decode` leaves alone. */
  predicate Settled(v: Attr) {
    !v.Bytes?
  }

  // ----- what the comprehension keeps -----

  lemma CoreKeysDistinct()
    ensures Distinct(CoreKeys) && |CoreKeys| == 16
  {
    var ks := CoreKeys;
    // the length, the first and the fourth character tell the keys apart
    assert forall i, j :: 0 <= i < j < 16 ==> |ks[i]| != |ks[j]| || ks[i][0] != ks[j][0] || ks[i][3] != ks[j][3];
  }

  /** The comprehension fails exactly when a kept byte value is not UTF-8. */
  lemma {:induction false} CollectOkIff(keys: seq<string>, md: map<string, Attr>)
    ensures Collect(keys, md).Ok? <==> forall k :: k in keys && k in md ==> DecodeAttr(md[k]).Some?
    decreases |keys|
  {
    if |keys| > 0 {
      CollectOkIff(keys[1..], md);
      assert forall k :: k in keys <==> k == keys[0] || k in keys[1..];
    }
  }

  /** An error names a key of `keys` present in `md` whose bytes do not decode. */
  lemma {:induction false} CollectError(keys: seq<string>, md: map<string, Attr>)
    requires Collect(keys, md).Err?
    ensures var k := Collect(keys, md).error.key;
      k in keys && k in md && DecodeAttr(md[k]).None?
    decreases |keys|
  {
    if keys[0] !in md || DecodeAttr(md[keys[0]]).Some? {
      CollectError(keys[1..], md);
    }
  }

  /** On success the keys are those of `keys` present in `md`, in the
      order of `keys`, and each value is its `_decode`d input value. */
  lemma {:induction false} CollectEntries(keys: seq<string>, md: map<string, Attr>)
    requires Collect(keys, md).Ok?
    ensures KeysOf(Collect(keys, md).value) == Present(keys, md)
    ensures forall i :: 0 <= i < |Collect(keys, md).value| ==>
      var (k, v) := Collect(keys, md).value[i];
      k in md && DecodeAttr(md[k]) == Some(v)
    decreases |keys|
  {
    if |keys| > 0 {
      CollectEntries(keys[1..], md);
      var out := Collect(keys, md).value;
      if keys[0] in md {
        var rest := Collect(keys[1..], md).value;
        assert out == [out[0]] + rest;
        assert KeysOf(out) == [keys[0]] + KeysOf(rest);
        assert forall i :: 1 <= i < |out| ==> out[i] == rest[i - 1];
      }
    }
  }

  /** The key set of the result is exactly the kept keys of `md`, and an
      error names one of those keys whose bytes do not decode. */
  lemma ExtractKeySet(md: map<string, Attr>)
    ensures ExtractCoreMetadata(md).Ok? <==>
      forall k :: k in CoreKeys && k in md ==> DecodeAttr(md[k]).Some?
    ensures ExtractCoreMetadata(md).Ok? ==>
      var out := ExtractCoreMetadata(md).value;
      (forall k :: k in KeysOf(out) <==> k in CoreKeys && k in md) &&
      Distinct(KeysOf(out))
    ensures ExtractCoreMetadata(md).Err? ==>
      var k := ExtractCoreMetadata(md).error.key;
      k in CoreKeys && k in md && DecodeAttr(md[k]).None?
  {
    CollectOkIff(CoreKeys, md);
    if ExtractCoreMetadata(md).Err? {
      CollectError(CoreKeys, md);
    } else {
      CollectEntries(CoreKeys, md);
      CoreKeysDistinct();
      PresentDistinct(CoreKeys, md);
    }
  }

  lemma {:induction false} PresentDistinct(keys: seq<string>, md: map<string, Attr>)
    requires Distinct(keys)
    ensures Distinct(Present(keys, md))
    decreases |keys|
  {
    if |keys| > 0 {
      PresentDistinct(keys[1..], md);
      var rest := Present(keys[1..], md);
      if keys[0] in md {
        assert keys[0] !in keys[1..];
        assert keys[0] !in rest;
        var r := [keys[0]] + rest;
        forall i, j | 0 <= i < j < |r|
          ensures r[i] != r[j]
        {
          if i == 0 {
            assert r[j] in rest;
          } else {
            assert r[i] == rest[i - 1] && r[j] == rest[j - 1];
          }
        }
      } else {
        assert Distinct(keys[1..]);
      }
    }
  }

  /** The keys of the result keep the order of the fixed list. */
  lemma ExtractOrder(md: map<string, Attr>)
    requires ExtractCoreMetadata(md).Ok?
    ensures KeysOf(ExtractCoreMetadata(md).value) == Present(CoreKeys, md)
  {
    CollectEntries(CoreKeys, md);
  }

  /** A byte value is replaced by its decoding, which encodes back to the
      same bytes; any other value, `None` included, is copied as it is. */
  lemma ExtractValues(md: map<string, Attr>, i: nat)
    requires ExtractCoreMetadata(md).Ok? && i < |ExtractCoreMetadata(md).value|
    ensures var (k, v) := ExtractCoreMetadata(md).value[i];
      k in CoreKeys && k in md &&
      (md[k].Bytes? ==> v.Text? && Decode(md[k].data) == Some(v.s) && Encode(v.s) == md[k].data) &&
      (!md[k].Bytes? ==> v == md[k])
  {
    CollectEntries(CoreKeys, md);
    var (k, v) := ExtractCoreMetadata(md).value[i];
    assert k == KeysOf(ExtractCoreMetadata(md).value)[i];
    if md[k].Bytes? {
      EncodeDecode(md[k].data);
    }
  }

  /** Keys outside the fixed list make no difference, whatever they hold. */
  lemma {:induction false} CollectIgnoresOthers(keys: seq<string>, md: map<string, Attr>, extra: map<string, Attr>)
    requires forall k :: k in extra ==> k !in keys
    ensures Collect(keys, md + extra) == Collect(keys, md)
    decreases |keys|
  {
    if |keys| > 0 {
      assert keys[0] !in extra;
      CollectIgnoresOthers(keys[1..], md, extra);
    }
  }

  lemma ExtractIgnoresOthers(md: map<string, Attr>, extra: map<string, Attr>)
    requires forall k :: k in extra ==> k !in CoreKeys
    ensures ExtractCoreMetadata(md + extra) == ExtractCoreMetadata(md)
  {
    CollectIgnoresOthers(CoreKeys, md, extra);
  }

  // ----- idempotence -----

  lemma {:induction false} ToMapLookup(entries: seq<(string, Attr)>, i: nat)
    requires Distinct(KeysOf(entries)) && i < |entries|
    ensures entries[i].0 in ToMap(entries) && ToMap(entries)[entries[i].0] == entries[i].1
    decreases |entries|
  {
    if i > 0 {
      var ks := KeysOf(entries);
      assert KeysOf(entries[1..]) == ks[1..];
      ToMapLookup(entries[1..], i - 1);
      assert ks[0] != ks[i];
    }
  }

  lemma {:induction false} ToMapKeys(entries: seq<(string, Attr)>)
    ensures forall k :: k in ToMap(entries) <==> k in KeysOf(entries)
    decreases |entries|
  {
    if |entries| > 0 {
      ToMapKeys(entries[1..]);
      assert KeysOf(entries) == [entries[0].0] + KeysOf(entries[1..]);
    }
  }

  /** A decoded value is left alone by `_decode`. */
  lemma DecodeSettles(v: Attr)
    requires DecodeAttr(v).Some?
    ensures Settled(DecodeAttr(v).value) && DecodeAttr(DecodeAttr(v).value) == DecodeAttr(v)
  {
  }

  /** Running the comprehension over a map that agrees with `md` on the
      kept keys but holds their decoded values gives the same entries. */
  lemma {:induction false} CollectAgain(keys: seq<string>, md: map<string, Attr>, m2: map<string, Attr>)
    requires Collect(keys, md).Ok?
    requires forall k :: k in keys ==> (k in m2 <==> k in md)
    requires forall k :: k in keys && k in md ==> DecodeAttr(md[k]).Some? && m2[k] == DecodeAttr(md[k]).value
    ensures Collect(keys, m2) == Collect(keys, md)
    decreases |keys|
  {
    if |keys| > 0 {
      var k := keys[0];
      CollectOkIff(keys, md);
      if k in md {
        DecodeSettles(md[k]);
      }
      CollectAgain(keys[1..], md, m2);
    }
  }

  lemma CollectIdempotent(keys: seq<string>, md: map<string, Attr>)
    requires Distinct(keys) && Collect(keys, md).Ok?
    ensures Collect(keys, ToMap(Collect(keys, md).value)) == Collect(keys, md)
  {
    var out := Collect(keys, md).value;
    var m2 := ToMap(out);
    CollectOkIff(keys, md);
    CollectEntries(keys, md);
    PresentDistinct(keys, md);
    ToMapKeys(out);
    forall k | k in keys && k in md
      ensures DecodeAttr(md[k]).Some? && m2[k] == DecodeAttr(md[k]).value
    {
      assert k in KeysOf(out);
      var i :| 0 <= i < |out| && KeysOf(out)[i] == k;
      ToMapLookup(out, i);
    }
    CollectAgain(keys, md, m2);
  }

  /** Applying the function to its own result gives the same result. */
  lemma ExtractIdempotent(md: map<string, Attr>)
    requires ExtractCoreMetadata(md).Ok?
    ensures ExtractCoreMetadata(ToMap(ExtractCoreMetadata(md).value)) == ExtractCoreMetadata(md)
  {
    CoreKeysDistinct();
    CollectIdempotent(CoreKeys, md);
  }
}
