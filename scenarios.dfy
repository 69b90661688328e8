/**
 * Whole-tree scenarios for the calibration search: a sensor dict built
 * around an encoded payload, the first of two sensor dicts, and the cases
 * where identity and payload are not on the same dict.
 */
module Scenarios {
  import opened Wrappers
  import opened Plist
  import opened Extract
  import Base64

  function Leaf(tag: string, text: string): Elem
  {
    Elem(tag, Some(text), [])
  }

  /** A dict whose pairs are `key` = `name` (a string) and CalibrationData = `text` (data). */
  function SensorDict(key: string, name: string, text: string): Elem
  {
    Elem("dict", None, [Leaf("key", key), Leaf("string", name), Leaf("key", "CalibrationData"), Leaf("data", text)])
  }

  /** A name holding a sensor marker is not empty. */
  lemma SensorNameNonEmpty(name: string)
    requires NamesSensor(name)
    ensures name != ""
  {
  }

  /** An identity key followed by a string naming the sensor is an identity pair. */
  lemma IdentityPair(cs: seq<Elem>, j: nat, key: string, name: string)
    requires j + 1 < |cs| && cs[j] == Leaf("key", key) && cs[j + 1] == Leaf("string", name)
    requires IsIdentityKey(key) && NamesSensor(name)
    ensures IdentityAt(cs, j)
  {
    SensorNameNonEmpty(name);
  }

  /** The four children of a sensor dict form two pairs. */
  lemma SensorDictPairs(key: string, name: string, text: string)
    ensures PairStarts(SensorDict(key, name, text).children, 0) == [0, 2]
  {
    var cs := SensorDict(key, name, text).children;
    assert PairStarts(cs, 4) == [];
    assert PairStarts(cs, 2) == [2];
  }

  /** The scan of a sensor dict: it names the sensor and holds the decoding of `text`. */
  lemma SensorDictScan(key: string, name: string, text: string, b: Bytes)
    requires IsIdentityKey(key) && NamesSensor(name) && text != ""
    requires Base64.Decode(text) == Some(b)
    ensures DictScan(SensorDict(key, name, text).children) == Ok(Scan(true, Some(b)))
  {
    var cs := SensorDict(key, name, text).children;
    SensorNameNonEmpty(name);
    SensorDictPairs(key, name, text);
    var ps: seq<nat> := [0, 2];
    assert IdentityAt(cs, ps[0]);
    assert SomePairNamesSensor(cs, ps);
    assert PayloadAt(cs, 2) && !PayloadAt(cs, 0);
    assert AllPayloadsDecode(cs, ps);
    assert ps[|ps| - 1] == 2;
    assert LastPayload(cs, ps) == Some(text);
  }

  /**
   * Round trip: the search over a sensor dict whose CalibrationData is the
   * base 64 encoding of the non-empty bytes `b` returns exactly `b`.
   */
  lemma EncodedPayloadIsFound(key: string, name: string, b: Bytes)
    requires IsIdentityKey(key) && NamesSensor(name) && |b| > 0
    ensures Find(SensorDict(key, name, Base64.Encode(b))) == Ok(Some(b))
  {
    Base64.DecodeEncode(b);
    SensorDictScan(key, name, Base64.Encode(b), b);
  }

  /** Of two sensor dicts in an array, the one earlier in document order supplies the result. */
  lemma FirstOfTwoSensorDicts(name1: string, b1: Bytes, name2: string, b2: Bytes)
    requires NamesSensor(name1) && NamesSensor(name2) && |b1| > 0 && |b2| > 0
    ensures
      var first := SensorDict("IORegistryEntryName", name1, Base64.Encode(b1));
      var second := SensorDict("IOClass", name2, Base64.Encode(b2));
      Find(Elem("array", None, [first, second])) == Ok(Some(b1))
  {
    var first := SensorDict("IORegistryEntryName", name1, Base64.Encode(b1));
    EncodedPayloadIsFound("IORegistryEntryName", name1, b1);
    var root := Elem("array", None, [first, SensorDict("IOClass", name2, Base64.Encode(b2))]);
    assert root.children[0] == first;
    assert FindInChildren(root, 0) == Ok(Some(b1));
  }

  /** A four-byte example: "AQIDBA==" under an AppleSPUVD6286 entry yields the bytes 01 02 03 04. */
  lemma FourByteExample()
    ensures Find(SensorDict("IORegistryEntryName", "AppleSPUVD6286", "AQIDBA==")) == Ok(Some([1, 2, 3, 4]))
  {
    ExampleEncoding();
    ExampleName();
    EncodedPayloadIsFound("IORegistryEntryName", "AppleSPUVD6286", [1, 2, 3, 4]);
  }

  lemma ExampleEncoding()
    ensures Base64.Encode([1, 2, 3, 4]) == "AQIDBA=="
  {
    var b: seq<Base64.Byte> := [1, 2, 3, 4];
    assert b[3..] == [4];
    assert Base64.EncodeGroup(1, 2, 3) == "AQID";
    assert Base64.Encode([4]) == "BA==";
  }

  lemma ExampleName()
    ensures NamesSensor("AppleSPUVD6286")
  {
    var s := "AppleSPUVD6286";
    assert s[8..] == "VD6286";
    assert Contains(s[8..], "VD6286");
    assert s[7..][1..] == s[8..];
    assert s[6..][1..] == s[7..];
    assert s[5..][1..] == s[6..];
    assert s[4..][1..] == s[5..];
    assert s[3..][1..] == s[4..];
    assert s[2..][1..] == s[3..];
    assert s[1..][1..] == s[2..];
  }

  /** A dict with only a CalibrationData pair. */
  function PayloadOnlyDict(text: string): Elem
  {
    Elem("dict", None, [Leaf("key", "CalibrationData"), Leaf("data", text)])
  }

  /** A leaf element is searched without result. */
  lemma LeafNotFound(tag: string, text: string)
    requires tag != "dict"
    ensures Find(Leaf(tag, text)) == Ok(None)
  {
    assert FindInChildren(Leaf(tag, text), 0) == Ok(None);
  }

  /** Payload without identity on the same dict: no result, even for well-formed base 64. */
  lemma PayloadWithoutIdentityNotFound(text: string)
    requires Base64.Decode(text).Some?
    ensures Find(PayloadOnlyDict(text)) == Ok(None)
  {
    var d := PayloadOnlyDict(text);
    var cs := d.children;
    assert PairStarts(cs, 2) == [];
    assert PairStarts(cs, 0) == [0];
    assert [0][..0] == [];
    assert !IdentityAt(cs, 0);
    assert !SomePairNamesSensor(cs, [0]);
    assert NodeVerdict(d) == Pass;
    LeafNotFound("key", "CalibrationData");
    LeafNotFound("data", text);
    assert FindInChildren(d, 2) == Ok(None);
    assert FindInChildren(d, 1) == Ok(None);
  }

  /** A dict naming the sensor whose only other pair holds `child`: it has no CalibrationData. */
  lemma IdentityOnlyScan(name: string, child: Elem)
    ensures
      var parent := Elem("dict", None, [Leaf("key", "IORegistryEntryName"), Leaf("string", name),
                                        Leaf("key", "IORegistryEntryChildren"), child]);
      DictScan(parent.children).Ok? && DictScan(parent.children).value.calData == None
  {
    var cs := [Leaf("key", "IORegistryEntryName"), Leaf("string", name), Leaf("key", "IORegistryEntryChildren"), child];
    assert PairStarts(cs, 4) == [];
    assert PairStarts(cs, 2) == [2];
    assert PairStarts(cs, 0) == [0, 2];
    var ps: seq<nat> := [0, 2];
    assert !PayloadAt(cs, ps[0]) && !PayloadAt(cs, ps[1]);
    assert ps[..1] == [0];
    assert LastPayload(cs, [0]) == None;
    assert LastPayload(cs, ps) == None;
    assert AllPayloadsDecode(cs, ps);
  }

  /**
   * Identity on a dict and payload on a dict nested below it do not make a
   * sensor node: the search finds nothing.
   */
  lemma IdentityAndPayloadOnDifferentDicts(name: string, text: string)
    requires NamesSensor(name) && Base64.Decode(text).Some?
    ensures
      var child := Elem("array", None, [PayloadOnlyDict(text)]);
      var parent := Elem("dict", None, [Leaf("key", "IORegistryEntryName"), Leaf("string", name),
                                        Leaf("key", "IORegistryEntryChildren"), child]);
      Find(parent) == Ok(None)
  {
    var child := Elem("array", None, [PayloadOnlyDict(text)]);
    var parent := Elem("dict", None, [Leaf("key", "IORegistryEntryName"), Leaf("string", name),
                                      Leaf("key", "IORegistryEntryChildren"), child]);
    IdentityOnlyScan(name, child);
    assert NodeVerdict(parent) == Pass;
    PayloadWithoutIdentityNotFound(text);
    assert child.children[0] == PayloadOnlyDict(text);
    assert FindInChildren(child, 1) == Ok(None);
    assert Find(child) == Ok(None);
    LeafNotFound("key", "IORegistryEntryName");
    LeafNotFound("string", name);
    LeafNotFound("key", "IORegistryEntryChildren");
    assert FindInChildren(parent, 4) == Ok(None);
    assert FindInChildren(parent, 3) == Ok(None);
    assert FindInChildren(parent, 2) == Ok(None);
    assert FindInChildren(parent, 1) == Ok(None);
  }

  /** A sensor dict whose CalibrationData pair comes before its identity pair. */
  function PayloadFirstSensorDict(key: string, name: string, text: string): Elem
  {
    Elem("dict", None, [Leaf("key", "CalibrationData"), Leaf("data", text), Leaf("key", key), Leaf("string", name)])
  }

  lemma PayloadFirstScan(key: string, name: string, text: string, b: Bytes)
    requires IsIdentityKey(key) && NamesSensor(name) && text != ""
    requires Base64.Decode(text) == Some(b)
    ensures DictScan(PayloadFirstSensorDict(key, name, text).children) == Ok(Scan(true, Some(b)))
  {
    var cs := PayloadFirstSensorDict(key, name, text).children;
    SensorNameNonEmpty(name);
    assert PairStarts(cs, 4) == [];
    assert PairStarts(cs, 2) == [2];
    var ps: seq<nat> := [0, 2];
    assert PairStarts(cs, 0) == ps;
    assert IdentityAt(cs, ps[1]);
    assert SomePairNamesSensor(cs, ps);
    assert PayloadAt(cs, 0) && !PayloadAt(cs, 2);
    assert AllPayloadsDecode(cs, ps);
    assert ps[..1] == [0];
    assert LastPayload(cs, [0]) == Some(text);
    assert LastPayload(cs, ps) == Some(text);
  }

  /** The order of the identity and payload pairs within the dict does not matter. */
  lemma PayloadBeforeIdentityIsFound(key: string, name: string, b: Bytes)
    requires IsIdentityKey(key) && NamesSensor(name) && |b| > 0
    ensures Find(PayloadFirstSensorDict(key, name, Base64.Encode(b))) == Ok(Some(b))
  {
    Base64.DecodeEncode(b);
    PayloadFirstScan(key, name, Base64.Encode(b), b);
  }

  /** A sensor dict with two CalibrationData pairs. */
  function TwoPayloadSensorDict(name: string, text1: string, text2: string): Elem
  {
    Elem("dict", None, [Leaf("key", "IOClass"), Leaf("string", name),
                        Leaf("key", "CalibrationData"), Leaf("data", text1),
                        Leaf("key", "CalibrationData"), Leaf("data", text2)])
  }

  lemma TwoPayloadScan(name: string, text1: string, text2: string, b2: Bytes)
    requires NamesSensor(name) && text1 != "" && text2 != ""
    requires Base64.Decode(text1).Some? && Base64.Decode(text2) == Some(b2)
    ensures DictScan(TwoPayloadSensorDict(name, text1, text2).children) == Ok(Scan(true, Some(b2)))
  {
    var cs := TwoPayloadSensorDict(name, text1, text2).children;
    TwoPayloadPairs(name, text1, text2);
    TwoPayloadParts(name, text1, text2);
    assert AllPayloadsDecode(cs, [0, 2, 4]);
  }

  /** The six children of that dict form three pairs. */
  lemma TwoPayloadPairs(name: string, text1: string, text2: string)
    ensures PairStarts(TwoPayloadSensorDict(name, text1, text2).children, 0) == [0, 2, 4]
  {
    var cs := TwoPayloadSensorDict(name, text1, text2).children;
    assert PairStarts(cs, 6) == [];
    assert PairStarts(cs, 4) == [4];
    assert PairStarts(cs, 2) == [2, 4];
  }

  /** What each of the three pairs of that dict holds. */
  lemma TwoPayloadParts(name: string, text1: string, text2: string)
    requires NamesSensor(name) && text1 != "" && text2 != ""
    ensures var cs := TwoPayloadSensorDict(name, text1, text2).children;
      && SomePairNamesSensor(cs, [0, 2, 4])
      && !PayloadAt(cs, 0) && PayloadText(cs, 2) == text1 && PayloadText(cs, 4) == text2
      && LastPayload(cs, [0, 2, 4]) == Some(text2)
  {
    var cs := TwoPayloadSensorDict(name, text1, text2).children;
    var ps: seq<nat> := [0, 2, 4];
    IdentityPair(cs, ps[0], "IOClass", name);
    assert PayloadAt(cs, 2) && PayloadAt(cs, 4);
    assert ps[|ps| - 1] == 4;
  }

  /** Of two CalibrationData pairs in the sensor dict, the later one is returned. */
  lemma LastPayloadIsReturned(name: string, b1: Bytes, b2: Bytes)
    requires NamesSensor(name) && |b1| > 0 && |b2| > 0
    ensures Find(TwoPayloadSensorDict(name, Base64.Encode(b1), Base64.Encode(b2))) == Ok(Some(b2))
  {
    Base64.DecodeEncode(b1);
    Base64.DecodeEncode(b2);
    TwoPayloadScan(name, Base64.Encode(b1), Base64.Encode(b2), b2);
  }

  /**
   * A key followed by another key takes that key as its value, and a key in
   * the last position has no value and is skipped: in the children below,
   * the CalibrationData key is consumed as the value of IOClass, so its data
   * is never decoded, however malformed.
   */
  lemma KeyAsValueIsConsumed(text: string)
    ensures
      var cs := [Leaf("key", "IOClass"), Leaf("key", "CalibrationData"), Leaf("data", text), Leaf("key", "IOClass")];
      PairStarts(cs, 0) == [0] && DictScan(cs) == Ok(Scan(false, None))
  {
    var cs := [Leaf("key", "IOClass"), Leaf("key", "CalibrationData"), Leaf("data", text), Leaf("key", "IOClass")];
    assert PairStarts(cs, 4) == [];
    assert PairStarts(cs, 3) == [];
    assert PairStarts(cs, 2) == [];
    assert PairStarts(cs, 0) == [0];
    var ps: seq<nat> := [0];
    assert ps[..0] == [];
    assert !IdentityAt(cs, 0) && !PayloadAt(cs, 0);
    assert LastPayload(cs, ps) == None;
    assert !SomePairNamesSensor(cs, ps);
    assert AllPayloadsDecode(cs, ps);
  }
}
