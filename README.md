# ALS calibration extractor, modelled in Dafny

`extract-als-cal.py` reads an XML property-list dump of the macOS I/O
registry (`ioreg -l -a`). It finds the registry node of the ambient-light
sensor (AppleSPUVD6286 / SPUALS) and writes that node's base 64
`CalibrationData` blob as a binary file for the Linux driver.

This project models the core of that script:

- `find_calibration`. Two parts:
  - The per-dict pair scan. It walks the children of a `<dict>` as
    key/value pairs, records whether an identity key names the sensor, and
    decodes every `CalibrationData` value. This is the imperative method
    `Extract.ScanDict`, proved equal to the declarative `Extract.DictScan`.
  - The recursive, first-match descent. This is the pure function
    `Extract.Find`, proved equal to "the first decisive element in document
    order".
- Base 64 decoding, in `Base64`. It is a concrete encoder and strict decoder
  following section 4 of RFC 4648, with the round trip proved.
- The argument handling of `main`, in `Cli`:
  - choosing the input and output paths;
  - the outcome of one run;
  - the exit status.

Files:

- `wrappers.dfy`: Option/Result.
- `base64.dfy`: the codec.
- `plist.dfy`: the element tree, plus Python's substring test.
- `extract.dfy`: the scan, the search and their theorems.
- `scenarios.dfy`: whole-tree examples.
- `cli.dfy`: the entry point.

The parsed tree is the datatype `Plist.Elem`: a tag, an optional text (absent
when the element has no character data, as with ElementTree's `None`) and
the children in document order. Python's `x.text or ""` is
`Plist.TextOrEmpty`. The truth test `val.text` is `Plist.HasText`, meaning
present and non-empty.

The model matches the code in three places where it could easily be misread:

- Eager decoding. Every `CalibrationData` value in every dict the search
  visits is decoded while its dict is scanned, before the search knows
  whether that dict names the sensor. A malformed value therefore ends the
  whole search with an error, even on a dict that is not the sensor's. The
  model returns `Err(MalformedBase64)` for the uncaught exception.
- Last pair wins. If a dict holds several `CalibrationData` pairs, the last
  one is returned. Its position relative to the identity pair does not
  matter.
- Pairing. A key is paired with whatever element follows it, even another
  key, and that element is consumed. A key in the last position has no
  value and is skipped by one position.

## Model

| member | source | states |
|---|---|---|
| Plist.ContainsIff | extract-als-cal.py:42 | The substring test used for "VD6286" / "SPUALS" holds exactly when some position of the text starts a copy of the marker (Python's `in` on strings). |
| Base64.CharOf | extract-als-cal.py:47 | Each sextet's alphabet character decodes back to that sextet and is never the pad character. |
| Base64.Encode | extract-als-cal.py:47 | An encoding is a whole number of 4-character groups, and it is empty exactly when the input is empty. |
| Base64.Decode | extract-als-cal.py:47 | A decoded text yields at most 3 bytes per 4-character group. |
| Base64.DecodeEncode | extract-als-cal.py:47 | Round trip: decoding the encoding of any byte string gives back exactly that byte string, including zero bytes at either end. |
| Base64.DecodeSucceedsIff | extract-als-cal.py:47 | Decoding succeeds if and only if the text is well-formed: length a multiple of 4, only alphabet characters, and at most two `=` only at the end. Otherwise the decode raises. |
| Base64.DecodeNonEmpty | extract-als-cal.py:47 | A non-empty text that decodes yields at least one byte. |
| Base64.GroupSucceedsIff | extract-als-cal.py:47 | A 4-character group that is not the last decodes if and only if all four characters are in the alphabet. |
| Base64.FinalGroupSucceedsIff | extract-als-cal.py:47 | The last group decodes if and only if it is well-formed, with padding only in its last one or two places. |
| Base64.WellformedSplit | extract-als-cal.py:47 | A text longer than one group is well-formed if and only if its first group is all alphabet and the rest is well-formed. |
| Base64.GroupRoundTrip | extract-als-cal.py:47 | Three bytes encode to a group that decodes back to those three bytes. |
| Extract.PairStarts | extract-als-cal.py:34-51 | Every position the scan treats as a pair start is a key element with an element after it. Consecutive pair starts are at least two apart, so no element is both value and key. |
| Extract.PairStartsTiles | extract-als-cal.py:34-51 | The scan's pair starts tile the children: every key with a successor is either a pair start or the value of the pair just before it, and the first such key is always a pair start. |
| Extract.TilingIsPairStarts | extract-als-cal.py:34-51 | The tiling is unique: any list of pair starts with those properties is the scan's. The odd-length boundary, a trailing key with no value, is fixed by this. |
| Extract.LastPayloadIsLast | extract-als-cal.py:45-47 | There is no recorded CalibrationData exactly when no pair is a CalibrationData pair. Otherwise the recorded text is that of the pair after which no CalibrationData pair follows (last pair wins). |
| Extract.LastPayloadUnique | extract-als-cal.py:45-47 | Only one pair can be the last CalibrationData pair. |
| Extract.TakePair | extract-als-cal.py:39-47 | Taking one more pair adds its identity match to the sensor flag, adds its malformedness to the failure condition, and replaces the recorded CalibrationData text when the pair is a CalibrationData pair. |
| Extract.GatherPair | extract-als-cal.py:39-49 | The loop body's update of the sensor flag and the decoded CalibrationData keeps the scan state equal to what the pairs taken so far establish. |
| Extract.MalformedPairAborts | extract-als-cal.py:46-47 | A malformed CalibrationData pair reached by the scan makes the whole dict's scan fail. |
| Extract.AdvanceScan | extract-als-cal.py:35-51 | Moving by two past a key with a successor, or by one otherwise, keeps "pairs taken + pairs ahead = all pairs". |
| Extract.GatheredAll | extract-als-cal.py:34-51 | When every pair has been taken, the scan state is the dict's scan result. |
| Extract.DictScan | extract-als-cal.py:29-51 | The declarative scan of one dict that the loop is proved equal to. When it succeeds with calibration bytes, they are the decoding of the text of the last CalibrationData pair. `Extract.TilingIsPairStarts` and `Extract.LastPayloadIsLast` pin down its pairing and its last-pair choice. |
| Extract.ScanPair | extract-als-cal.py:36-47 | For one pair: fails exactly when it is a CalibrationData pair whose text does not decode. It sets the sensor flag exactly when the key is an identity key and the value is a non-empty string naming the sensor. On success it records the decoded bytes of a CalibrationData pair and keeps the old record otherwise. |
| Extract.ScanDict | extract-als-cal.py:29-51 | The while loop returns exactly the dict's declarative scan: an error if any CalibrationData pair is malformed; otherwise whether some pair names the sensor, and the decoding of the last CalibrationData pair. |
| Extract.NodeVerdict | extract-als-cal.py:28-54 | The per-element decision, including the truth test `has_vd6286 and cal_data` of line 53. Only a dict can decide anything, and the bytes it yields are never empty. `Extract.HitIffSensorDict` characterises it completely. |
| Extract.Find | extract-als-cal.py:26-61 | A found result is never empty bytes, so the truth tests `cal_data` and `result` are presence tests. |
| Extract.FindInChildren | extract-als-cal.py:56-61 | A present result of the loop over the children is non-empty. Its first-child behaviour is stated by `Extract.FirstDecisiveChildDecides` and `Extract.NoChildDecidesIff`, and in document-order terms by `Extract.FindInChildrenIsFirstInPreOrder`. |
| Extract.FirstDecisiveChildDecides | extract-als-cal.py:56-59 | When every child before child m yields nothing and child m yields bytes or fails, the loop over the children returns exactly what child m yields. |
| Extract.NoChildDecidesIff | extract-als-cal.py:56-61 | The loop over the children from position j yields nothing if and only if every child from j on yields nothing. |
| Extract.FirstVerdict | extract-als-cal.py:26-61 | No result exactly when every element is undecided. A result or an error is decided by an element before which all elements are undecided. |
| Extract.FirstVerdictAppend | extract-als-cal.py:56-61 | In a concatenation, the second part matters only when the first part decides nothing. |
| Extract.FindIsFirstInPreOrder | extract-als-cal.py:26-61 | The recursive search returns exactly what the first decisive element in document (pre-)order decides: each node before its children, and children left to right. |
| Extract.FindInChildrenIsFirstInPreOrder | extract-als-cal.py:56-61 | Searching the children from position j returns what the first decisive element of their subtrees, in document order, decides. |
| Extract.HitIffSensorDict | extract-als-cal.py:28-54 | An element yields bytes b if and only if all of the following hold on the same dict: it is a dict, its CalibrationData pairs all decode, some pair names the sensor, and its last CalibrationData pair decodes to the non-empty b. |
| Extract.FirstVerdictAt | extract-als-cal.py:56-61 | The first element that is not undecided decides the outcome: its bytes, or the error. |
| Extract.FirstSensorDictWins | extract-als-cal.py:53-61 | If the first decisive element in document order is a sensor dict carrying b, the search returns b (first match wins). |
| Extract.FoundIsFirstSensorDict | extract-als-cal.py:53-61 | Any result b is carried by a sensor dict that is the first decisive element in document order. |
| Extract.NotFoundIff | extract-als-cal.py:26-61 | The search finds nothing and does not fail if and only if no element of the tree is a sensor dict or a dict with malformed CalibrationData. |
| Extract.MalformedPayloadAborts | extract-als-cal.py:46-47 | A malformed CalibrationData pair in any dict visited before a sensor dict makes the whole search fail, whether or not that dict names the sensor. |
| Scenarios.SensorNameNonEmpty | extract-als-cal.py:41-42 | A value that names the sensor is non-empty, so the truth test on it is implied. |
| Scenarios.SensorDictPairs | extract-als-cal.py:34-51 | In a four-element dict (key, string, key, data) the pairs start at 0 and 2. |
| Scenarios.SensorDictScan | extract-als-cal.py:34-51 | Scanning an identity pair followed by a well-formed CalibrationData pair gives "names the sensor" and the decoded bytes. |
| Scenarios.EncodedPayloadIsFound | extract-als-cal.py:26-61 | Round trip: any non-empty bytes, base 64 encoded into a sensor dict, are returned unchanged by the search. |
| Scenarios.FirstOfTwoSensorDicts | extract-als-cal.py:56-59 | Of two sensor dicts under one parent, the first one's bytes are returned. |
| Scenarios.FourByteExample | extract-als-cal.py:26-61 | A four-byte example: "AQIDBA==" under IORegistryEntryName "AppleSPUVD6286", yields the bytes 01 02 03 04. |
| Scenarios.ExampleEncoding | extract-als-cal.py:47 | The bytes 01 02 03 04 encode as "AQIDBA==". |
| Scenarios.ExampleName | extract-als-cal.py:42 | "AppleSPUVD6286" names the sensor. |
| Scenarios.LeafNotFound | extract-als-cal.py:56-61 | A non-dict element without children yields nothing. |
| Scenarios.PayloadWithoutIdentityNotFound | extract-als-cal.py:53-54 | A dict holding well-formed CalibrationData but no identity pair yields nothing. |
| Scenarios.IdentityOnlyScan | extract-als-cal.py:34-51 | A dict naming the sensor whose other key is not CalibrationData scans with no calibration record, whatever that key's value is, even a data element. |
| Scenarios.IdentityAndPayloadOnDifferentDicts | extract-als-cal.py:53-61 | Identity on a parent dict and CalibrationData on a dict nested below it do not combine: the search finds nothing. |
| Scenarios.PayloadFirstScan | extract-als-cal.py:34-51 | A CalibrationData pair before the identity pair scans the same as after it. |
| Scenarios.PayloadBeforeIdentityIsFound | extract-als-cal.py:26-61 | The order of the identity pair and the CalibrationData pair does not matter: the bytes are found. |
| Scenarios.TwoPayloadScan | extract-als-cal.py:45-47 | With two well-formed CalibrationData pairs, the scan records the second. |
| Scenarios.LastPayloadIsReturned | extract-als-cal.py:45-54 | With two CalibrationData pairs on the sensor dict, the search returns the bytes of the last one. |
| Scenarios.KeyAsValueIsConsumed | extract-als-cal.py:35-51 | A key followed by a key takes that key as its value, and a trailing key is skipped. A CalibrationData key consumed this way is never decoded. |
| Cli.Run | extract-als-cal.py:64-81 | The outcome of one run. It is a usage error exactly when argv has fewer than 2 entries. It is "not found" exactly when the path is given and the search yields nothing (`cal is None`). It is an uncaught error exactly when the search fails. A write puts non-empty bytes to argv[2] or "aop-als-cal.bin". `Cli.RunSucceedsIff` ties the write to the search result. |
| Cli.SelectPaths | extract-als-cal.py:64-70 | Usage error exactly when argv has fewer than 2 entries. Otherwise the input is argv[1], and the output is argv[2] if present, else "aop-als-cal.bin". |
| Cli.ExtraArgumentsIgnored | extract-als-cal.py:69-70 | Arguments after the output path do not change the chosen paths. |
| Cli.ExitStatus | extract-als-cal.py:65-89 | The exit status is 0 exactly when the calibration is written, and 1 otherwise (usage error, not found, or uncaught decoding error). |
| Cli.UsageErrorIgnoresInput | extract-als-cal.py:65-67 | With a missing input path the run is a usage error, whatever the input tree. |
| Cli.RunSucceedsIff | extract-als-cal.py:64-89 | A run exits 0 if and only if the input path is given and the search finds bytes. The bytes written are then exactly the search result, never empty, to the chosen output path. |

## Left out

- Parsing the XML file (`ET.parse`, line 72) is not modelled. The parsed tree is a parameter of `Cli.Run`, so malformed XML and unreadable files are outside the model.
- Writing the output file and all console messages (lines 66, 76-77, 80-89) are not modelled. A run ends in an `Outcome` that names the path and bytes to write.
- Base64.Decode: the decoder is strict, which is weaker than Python's `base64.b64decode` with its default `validate=False`. Python discards ASCII characters outside the alphabet, such as the line breaks and tabs found in ioreg dumps, before decoding. A non-ASCII character makes Python raise as well, so on such texts Python and the model agree. Python also accepts some texts with misplaced or extra padding. The model treats all of these as malformed, so it can report an error where Python returns bytes. Some of these texts Python decodes to empty bytes, for example "\n\t" or "====". There the dict fails the truth test `has_vd6286 and cal_data` of line 53 and Python's search goes on, ending in "not found" or in the bytes of a later dict. The model instead aborts the whole search with `Err(MalformedBase64)`.
- Cli.ExitStatus: Python's status on an uncaught exception is modelled as 1, the interpreter's usual status. The traceback it prints is not modelled.
- Extract.ScanDict: the three nested `if`s of lines 40-43 are written as the single condition `Extract.IdentityAt`, which is equivalent. The loop body is factored into `Extract.ScanPair`.
- Extract.Find: ElementTree's iteration over a live element (line 56) is modelled as the immutable sequence of children. Mutation during the search does not happen in the source. The recursion has no depth bound in the model. CPython's recursion limit, 1000 frames by default, makes the source raise `RecursionError` on a tree nested about that deep.
