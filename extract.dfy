/**
 * The calibration search of extract-als-cal.py (`find_calibration`): a
 * depth-first, pre-order, first-match walk over the plist tree that looks
 * for a "dict" element naming the ambient-light sensor and carrying its
 * base 64 CalibrationData, and returns the decoded bytes.
 */
module Extract {
  import opened Wrappers
  import opened Plist
  import Base64

  type Bytes = seq<Base64.Byte>

  /** The only error the search raises: a CalibrationData text that is not base 64. */
  datatype Failure = MalformedBase64

  /** The registry keys whose string value names the node's driver. */
  predicate IsIdentityKey(k: string)
  {
    k == "IORegistryEntryName" || k == "IOClass" || k == "IOObjectClass"
  }

  /** A name that marks the ambient-light sensor node. */
  predicate NamesSensor(name: string)
  {
    Contains(name, "VD6286") || Contains(name, "SPUALS")
  }

  // ---------------------------------------------------------------------
  // The key/value pairing of a dict's children
  // ---------------------------------------------------------------------

  /**
   * The positions at which a scan of `cs` started at `i` takes a key/value
   * pair: a "key" element that has a successor is paired with it and the
   * scan moves on by two; any other element is stepped over.
   */
  function PairStarts(cs: seq<Elem>, i: nat): (r: seq<nat>)
    ensures forall k :: 0 <= k < |r| ==> i <= r[k] && r[k] + 1 < |cs| && cs[r[k]].tag == "key"
    ensures forall k :: 0 <= k < |r| - 1 ==> r[k] + 2 <= r[k + 1]
    decreases |cs| - i
  {
    if i >= |cs| then []
    else if cs[i].tag == "key" && i + 1 < |cs| then [i] + PairStarts(cs, i + 2)
    else PairStarts(cs, i + 1)
  }

  /**
   * `p` tiles `cs` from `i` on into key/value pairs: every start is a key
   * with a successor, pairs do not overlap, and every key with a successor
   * either starts a pair or is the value of the pair just before it.
   */
  ghost predicate Tiling(cs: seq<Elem>, i: nat, p: seq<nat>)
  {
    && (forall k :: 0 <= k < |p| ==> i <= p[k] && p[k] + 1 < |cs| && cs[p[k]].tag == "key")
    && (forall k :: 0 <= k < |p| - 1 ==> p[k] + 2 <= p[k + 1])
    && (KeyWithSuccessor(cs, i) ==> i in p)
    && (forall m :: i < m && KeyWithSuccessor(cs, m) ==> m in p || m - 1 in p)
  }

  /** Position `m` holds a "key" element that has a following sibling. */
  predicate KeyWithSuccessor(cs: seq<Elem>, m: nat)
  {
    m + 1 < |cs| && cs[m].tag == "key"
  }

  /** The scan's pairing is a tiling. */
  lemma {:induction false} PairStartsTiles(cs: seq<Elem>, i: nat)
    ensures Tiling(cs, i, PairStarts(cs, i))
    decreases |cs| - i
  {
    var r := PairStarts(cs, i);
    if i >= |cs| {
    } else if cs[i].tag == "key" && i + 1 < |cs| {
      PairStartsTiles(cs, i + 2);
      var r2 := PairStarts(cs, i + 2);
      assert r == [i] + r2;
      assert r[0] == i;
      forall m | i < m && KeyWithSuccessor(cs, m)
        ensures m in r || m - 1 in r
      {
        if m == i + 1 {
          assert r[0] == m - 1;
        } else if m == i + 2 {
          assert r[1] == m;
        } else {
          assert m in r2 || m - 1 in r2;
        }
      }
    } else {
      PairStartsTiles(cs, i + 1);
      var r1 := PairStarts(cs, i + 1);
      assert r == r1;
      forall m | i < m && KeyWithSuccessor(cs, m)
        ensures m in r || m - 1 in r
      {
        if m == i + 1 {
          assert m in r1;
        } else {
          assert m in r1 || m - 1 in r1;
        }
      }
    }
  }

  /** The tiling is unique: the scan's pairing is the only one. */
  lemma {:induction false} TilingIsPairStarts(cs: seq<Elem>, i: nat, p: seq<nat>)
    requires Tiling(cs, i, p)
    ensures p == PairStarts(cs, i)
    decreases |cs| - i
  {
    if i >= |cs| {
      TilingStartsBelowEnd(cs, i, p);
    } else if KeyWithSuccessor(cs, i) {
      TilingAfterPair(cs, i, p);
      TilingIsPairStarts(cs, i + 2, p[1..]);
      assert p == [i] + p[1..];
    } else {
      TilingAfterSkip(cs, i, p);
      TilingIsPairStarts(cs, i + 1, p);
    }
  }

  lemma TilingStartsBelowEnd(cs: seq<Elem>, i: nat, p: seq<nat>)
    requires Tiling(cs, i, p)
    ensures |p| > 0 ==> i + 1 < |cs|
  {
    if |p| > 0 {
      assert i <= p[0] && p[0] + 1 < |cs|;
    }
  }

  /** A tiling from a key with a successor starts with that pair and goes on as a tiling two further on. */
  lemma TilingAfterPair(cs: seq<Elem>, i: nat, p: seq<nat>)
    requires Tiling(cs, i, p)
    requires KeyWithSuccessor(cs, i)
    ensures |p| > 0 && p[0] == i
    ensures Tiling(cs, i + 2, p[1..])
  {
    var k :| 0 <= k < |p| && p[k] == i;
    forall t | 0 <= t < |p| ensures p[0] <= p[t] {
      if t > 0 {
        SortedBelow(p, 0, t);
      }
    }
    assert p[0] == i;
    var q := p[1..];
    forall t | 0 <= t < |q| ensures i + 2 <= q[t] && q[t] + 1 < |cs| && cs[q[t]].tag == "key" {
      assert q[t] == p[t + 1];
      SortedBelow(p, 0, t + 1);
    }
    forall t | 0 <= t < |p| ensures p[t] != i + 1 {
      if t > 0 {
        assert p[t] == q[t - 1];
      }
    }
    forall v | v in p && i < v ensures v in q {
      var t :| 0 <= t < |p| && p[t] == v;
      assert q[t - 1] == v;
    }
    if KeyWithSuccessor(cs, i + 2) {
      assert i + 2 in p || i + 1 in p;
      assert i + 2 in q;
    }
    forall m | i + 2 < m && KeyWithSuccessor(cs, m) ensures m in q || m - 1 in q {
      assert m in p || m - 1 in p;
    }
  }

  /** A tiling from a position that cannot start a pair is a tiling from the next position. */
  lemma TilingAfterSkip(cs: seq<Elem>, i: nat, p: seq<nat>)
    requires Tiling(cs, i, p)
    requires i < |cs| && !KeyWithSuccessor(cs, i)
    ensures Tiling(cs, i + 1, p)
  {
    assert i !in p;
    forall t | 0 <= t < |p| ensures i + 1 <= p[t] {
      assert p[t] != i;
    }
  }

  /** In a sequence whose consecutive elements grow by at least two, earlier elements are smaller. */
  lemma {:induction false} SortedBelow(p: seq<nat>, a: nat, b: nat)
    requires a < b < |p|
    requires forall k :: 0 <= k < |p| - 1 ==> p[k] + 2 <= p[k + 1]
    ensures p[a] + 2 <= p[b]
    decreases b - a
  {
    if a + 1 < b {
      SortedBelow(p, a + 1, b);
    }
  }

  // ---------------------------------------------------------------------
  // What one dict says about itself
  // ---------------------------------------------------------------------

  /** The pair at `j` names the sensor: an identity key with a non-empty string value holding a sensor name. */
  predicate IdentityAt(cs: seq<Elem>, j: nat)
  {
    && j + 1 < |cs|
    && IsIdentityKey(TextOrEmpty(cs[j]))
    && cs[j + 1].tag == "string"
    && HasText(cs[j + 1])
    && NamesSensor(cs[j + 1].text.value)
  }

  /** The pair at `j` is a CalibrationData key with a non-empty data value. */
  predicate PayloadAt(cs: seq<Elem>, j: nat)
  {
    && j + 1 < |cs|
    && TextOrEmpty(cs[j]) == "CalibrationData"
    && cs[j + 1].tag == "data"
    && HasText(cs[j + 1])
  }

  /** The base 64 text of the CalibrationData pair at `j`. */
  function PayloadText(cs: seq<Elem>, j: nat): string
    requires PayloadAt(cs, j)
  {
    cs[j + 1].text.value
  }

  /** The pair at `j` is a CalibrationData pair whose text does not decode. */
  predicate MalformedAt(cs: seq<Elem>, j: nat)
  {
    PayloadAt(cs, j) && Base64.Decode(PayloadText(cs, j)).None?
  }

  /** The pair starting at `ps[k]` is the last CalibrationData pair among those starting at `ps`. */
  ghost predicate IsLastPayload(cs: seq<Elem>, ps: seq<nat>, k: int)
  {
    0 <= k < |ps| && PayloadAt(cs, ps[k]) && forall m :: k < m < |ps| ==> !PayloadAt(cs, ps[m])
  }

  /** The text of the last CalibrationData pair among the pairs starting at `ps`. */
  function LastPayload(cs: seq<Elem>, ps: seq<nat>): Option<string>
  {
    if ps == [] then None
    else if PayloadAt(cs, ps[|ps| - 1]) then Some(PayloadText(cs, ps[|ps| - 1]))
    else LastPayload(cs, ps[..|ps| - 1])
  }

  /**
   * LastPayload finds nothing exactly when there is no CalibrationData pair,
   * and otherwise the text of the pair after which no other follows.
   */
  lemma {:induction false} LastPayloadIsLast(cs: seq<Elem>, ps: seq<nat>)
    ensures LastPayload(cs, ps).None? <==> forall k :: 0 <= k < |ps| ==> !PayloadAt(cs, ps[k])
    ensures LastPayload(cs, ps).Some? ==>
              exists k :: IsLastPayload(cs, ps, k) && LastPayload(cs, ps).value == PayloadText(cs, ps[k])
  {
    if ps != [] {
      var n := |ps| - 1;
      if PayloadAt(cs, ps[n]) {
        assert IsLastPayload(cs, ps, n);
      } else {
        var front := ps[..n];
        LastPayloadIsLast(cs, front);
        assert forall m :: 0 <= m < n ==> front[m] == ps[m];
        if LastPayload(cs, front).Some? {
          var k :| IsLastPayload(cs, front, k) && LastPayload(cs, front).value == PayloadText(cs, front[k]);
          assert IsLastPayload(cs, ps, k);
        }
      }
    }
  }

  /** There is only one last CalibrationData pair. */
  lemma LastPayloadUnique(cs: seq<Elem>, ps: seq<nat>, k: int, k': int)
    requires IsLastPayload(cs, ps, k) && IsLastPayload(cs, ps, k')
    ensures k == k'
  {
  }

  /** What the scan of one dict learns: whether it names the sensor, and the calibration bytes it holds. */
  datatype Scan = Scan(identified: bool, calData: Option<Bytes>)

  /** Some pair among those starting at `ps` names the sensor. */
  predicate SomePairNamesSensor(cs: seq<Elem>, ps: seq<nat>)
  {
    exists k :: 0 <= k < |ps| && IdentityAt(cs, ps[k])
  }

  /** Every CalibrationData pair among those starting at `ps` holds base 64. */
  predicate AllPayloadsDecode(cs: seq<Elem>, ps: seq<nat>)
  {
    forall k :: 0 <= k < |ps| ==> !MalformedAt(cs, ps[k])
  }

  /**
   * The outcome of scanning the children `cs` of a dict: an error if any
   * CalibrationData pair is malformed, otherwise whether some pair names the
   * sensor, and the decoding of the last CalibrationData pair.
   */
  function DictScan(cs: seq<Elem>): (r: Result<Scan, Failure>)
    ensures r.Ok? && r.value.calData.Some? ==>
              exists k :: IsLastPayload(cs, PairStarts(cs, 0), k)
                          && Base64.Decode(PayloadText(cs, PairStarts(cs, 0)[k])) == r.value.calData
  {
    var ps := PairStarts(cs, 0);
    LastPayloadIsLast(cs, ps);
    if !AllPayloadsDecode(cs, ps) then Err(MalformedBase64)
    else Ok(Scan(SomePairNamesSensor(cs, ps), DecodedOrNone(LastPayload(cs, ps))))
  }

  /** The decoding of a CalibrationData text, or None when there is none. */
  function DecodedOrNone(text: Option<string>): Option<Bytes>
  {
    match text
    case None => None
    case Some(t) => Base64.Decode(t)
  }

  /** What one more pair adds to the facts gathered so far. */
  lemma TakePair(cs: seq<Elem>, ps: seq<nat>, j: nat)
    ensures SomePairNamesSensor(cs, ps + [j]) <==> SomePairNamesSensor(cs, ps) || IdentityAt(cs, j)
    ensures AllPayloadsDecode(cs, ps + [j]) <==> AllPayloadsDecode(cs, ps) && !MalformedAt(cs, j)
    ensures LastPayload(cs, ps + [j]) ==
            if PayloadAt(cs, j) then Some(PayloadText(cs, j)) else LastPayload(cs, ps)
  {
    var q := ps + [j];
    assert q[..|ps|] == ps;
    assert q[|ps|] == j;
    assert forall k :: 0 <= k < |ps| ==> q[k] == ps[k];
  }

  /** One step of the scan. */
  lemma PairStartsAtKey(cs: seq<Elem>, i: nat)
    requires i < |cs|
    ensures KeyWithSuccessor(cs, i) ==> PairStarts(cs, i) == [i] + PairStarts(cs, i + 2)
    ensures !KeyWithSuccessor(cs, i) ==> PairStarts(cs, i) == PairStarts(cs, i + 1)
  {
  }

  /** The scan state `identified`, `calData` is what the pairs starting at `taken` establish. */
  ghost predicate Gathered(cs: seq<Elem>, taken: seq<nat>, identified: bool, calData: Option<Bytes>)
  {
    && identified == SomePairNamesSensor(cs, taken)
    && AllPayloadsDecode(cs, taken)
    && calData == DecodedOrNone(LastPayload(cs, taken))
  }

  /** Taking one more well-formed pair updates the scan state as the loop body does. */
  lemma GatherPair(cs: seq<Elem>, taken: seq<nat>, j: nat, identified: bool, calData: Option<Bytes>)
    requires Gathered(cs, taken, identified, calData)
    requires !MalformedAt(cs, j)
    ensures Gathered(cs, taken + [j], identified || IdentityAt(cs, j),
                     if PayloadAt(cs, j) then Base64.Decode(PayloadText(cs, j)) else calData)
  {
    TakePair(cs, taken, j);
  }

  /** A malformed pair reached by the scan makes the whole dict's scan fail. */
  lemma MalformedPairAborts(cs: seq<Elem>, taken: seq<nat>, i: nat)
    requires i < |cs| && taken + PairStarts(cs, i) == PairStarts(cs, 0)
    requires KeyWithSuccessor(cs, i) && MalformedAt(cs, i)
    ensures DictScan(cs) == Err(MalformedBase64)
  {
    PairStartsAtKey(cs, i);
    var all := PairStarts(cs, 0);
    assert all[|taken|] == i;
  }

  /** The pairs taken so far followed by the pairs still ahead are all the pairs. */
  lemma AdvanceScan(cs: seq<Elem>, taken: seq<nat>, i: nat)
    requires i < |cs| && taken + PairStarts(cs, i) == PairStarts(cs, 0)
    ensures KeyWithSuccessor(cs, i) ==> (taken + [i]) + PairStarts(cs, i + 2) == PairStarts(cs, 0)
    ensures !KeyWithSuccessor(cs, i) ==> taken + PairStarts(cs, i + 1) == PairStarts(cs, 0)
  {
    PairStartsAtKey(cs, i);
    if KeyWithSuccessor(cs, i) {
      assert (taken + [i]) + PairStarts(cs, i + 2) == taken + ([i] + PairStarts(cs, i + 2));
    }
  }

  /** Once every pair is taken, the scan state is the dict's scan. */
  lemma GatheredAll(cs: seq<Elem>, identified: bool, calData: Option<Bytes>)
    requires Gathered(cs, PairStarts(cs, 0), identified, calData)
    ensures DictScan(cs) == Ok(Scan(identified, calData))
  {
  }

  /**
   * The body of the scan for the pair at `i`: fails on a malformed
   * CalibrationData value, otherwise records an identity match and the
   * decoded CalibrationData value.
   */
  method ScanPair(cs: seq<Elem>, i: nat, identified: bool, calData: Option<Bytes>)
    returns (ok: bool, identified': bool, calData': Option<Bytes>)
    requires i + 1 < |cs|
    ensures ok <==> !MalformedAt(cs, i)
    ensures identified' == (identified || IdentityAt(cs, i))
    ensures ok ==> calData' == if PayloadAt(cs, i) then Base64.Decode(PayloadText(cs, i)) else calData
  {
    ok, identified', calData' := true, identified, calData;
    if IdentityAt(cs, i) {
      identified' := true;
    }
    if PayloadAt(cs, i) {
      var decoded := Base64.Decode(PayloadText(cs, i));
      if decoded.None? {
        ok := false;
      } else {
        calData' := decoded;
      }
    }
  }

  /** The scan loop over a dict's children, pairing each key with the element after it. */
  method ScanDict(cs: seq<Elem>) returns (r: Result<Scan, Failure>)
    ensures r == DictScan(cs)
  {
    var i: nat := 0;
    var identified := false;
    var calData: Option<Bytes> := None;
    ghost var taken: seq<nat> := [];
    while i < |cs|
      invariant i <= |cs|
      invariant taken + PairStarts(cs, i) == PairStarts(cs, 0)
      invariant Gathered(cs, taken, identified, calData)
      decreases |cs| - i
    {
      AdvanceScan(cs, taken, i);
      if cs[i].tag == "key" && i + 1 < |cs| {
        var ok, newIdentified, newCalData := ScanPair(cs, i, identified, calData);
        if !ok {
          MalformedPairAborts(cs, taken, i);
          return Err(MalformedBase64);
        }
        GatherPair(cs, taken, i, identified, calData);
        identified, calData := newIdentified, newCalData;
        taken := taken + [i];
        i := i + 2;
      } else {
        i := i + 1;
      }
    }
    assert PairStarts(cs, i) == [];
    assert taken == PairStarts(cs, 0);
    GatheredAll(cs, identified, calData);
    r := Ok(Scan(identified, calData));
  }

  // ---------------------------------------------------------------------
  // The search
  // ---------------------------------------------------------------------

  /** What visiting one element settles by itself. */
  datatype Verdict =
    | Abort              // a dict whose CalibrationData does not decode: the search fails
    | Hit(payload: Bytes) // the sensor dict: the search returns its bytes
    | Pass               // nothing settled here: the search goes on

  /**
   * The verdict of one element: only a dict is scanned; it is the sensor node
   * when it both names the sensor and holds non-empty calibration bytes.
   */
  function NodeVerdict(e: Elem): (r: Verdict)
    ensures r != Pass ==> e.tag == "dict"
    ensures r.Hit? ==> |r.payload| > 0
  {
    if e.tag != "dict" then Pass
    else
      match DictScan(e.children)
      case Err(_) => Abort
      case Ok(sc) =>
        if sc.identified && sc.calData.Some? && |sc.calData.value| > 0 then Hit(sc.calData.value)
        else Pass
  }

  /**
   * `find_calibration`: scan `e` if it is a dict and return its bytes if it is
   * the sensor node, otherwise search the children in document order.
   * A present result is never empty, so Python's truth test on it is a test
   * for presence.
   */
  function Find(e: Elem): (r: Result<Option<Bytes>, Failure>)
    ensures r.Ok? && r.value.Some? ==> |r.value.value| > 0
    decreases e, 1, 0
  {
    match NodeVerdict(e)
    case Abort => Err(MalformedBase64)
    case Hit(b) => Ok(Some(b))
    case Pass => FindInChildren(e, 0)
  }

  /** The loop over the children of `e` from position `j`: the first child that yields a result decides. */
  function FindInChildren(e: Elem, j: nat): (r: Result<Option<Bytes>, Failure>)
    ensures r.Ok? && r.value.Some? ==> |r.value.value| > 0
    decreases e, 0, |e.children| - j
  {
    if j >= |e.children| then Ok(None)
    else
      match Find(e.children[j])
      case Err(f) => Err(f)
      case Ok(Some(b)) => Ok(Some(b))
      case Ok(None) => FindInChildren(e, j + 1)
  }

  // ---------------------------------------------------------------------
  // The search specified on the document order
  // ---------------------------------------------------------------------

  /** The elements of the tree rooted at `e` in document (pre-)order. */
  ghost function PreOrder(e: Elem): (r: seq<Elem>)
    ensures |r| > 0 && r[0] == e
    decreases e, 1, 0
  {
    [e] + PreOrderOfChildren(e, 0)
  }

  /** The subtrees of the children of `e` from position `j` on, in document order. */
  ghost function PreOrderOfChildren(e: Elem, j: nat): seq<Elem>
    decreases e, 0, |e.children| - j
  {
    if j >= |e.children| then [] else PreOrder(e.children[j]) + PreOrderOfChildren(e, j + 1)
  }

  /** Every element before position `k` of `ns` settles nothing. */
  ghost predicate AllPassBefore(ns: seq<Elem>, k: int)
  {
    forall m :: 0 <= m < k && m < |ns| ==> NodeVerdict(ns[m]).Pass?
  }

  /**
   * The outcome decided by the first element of `ns` whose verdict is not
   * Pass: an error for a malformed dict, the bytes of a sensor node, and
   * no result when every element passes.
   */
  ghost function FirstVerdict(ns: seq<Elem>): (r: Result<Option<Bytes>, Failure>)
    ensures r == Ok(None) <==> AllPassBefore(ns, |ns|)
    ensures r.Ok? && r.value.Some? ==>
              exists k :: 0 <= k < |ns| && AllPassBefore(ns, k) && NodeVerdict(ns[k]) == Hit(r.value.value)
    ensures r.Err? ==> exists k :: 0 <= k < |ns| && AllPassBefore(ns, k) && NodeVerdict(ns[k]).Abort?
  {
    if ns == [] then Ok(None)
    else
      match NodeVerdict(ns[0])
      case Abort => Err(MalformedBase64)
      case Hit(b) => Ok(Some(b))
      case Pass =>
        var r := FirstVerdict(ns[1..]);
        assert forall m :: 1 <= m < |ns| ==> ns[m] == ns[1..][m - 1];
        if r.Ok? && r.value.Some? then
          var k :| 0 <= k < |ns| - 1 && AllPassBefore(ns[1..], k) && NodeVerdict(ns[1..][k]) == Hit(r.value.value);
          assert AllPassBefore(ns, k + 1) && NodeVerdict(ns[k + 1]) == Hit(r.value.value);
          r
        else if r.Err? then
          var k :| 0 <= k < |ns| - 1 && AllPassBefore(ns[1..], k) && NodeVerdict(ns[1..][k]).Abort?;
          assert AllPassBefore(ns, k + 1) && NodeVerdict(ns[k + 1]).Abort?;
          r
        else r
  }

  /** Only the part of the order up to the first decisive element matters. */
  lemma {:induction false} FirstVerdictAppend(a: seq<Elem>, b: seq<Elem>)
    ensures FirstVerdict(a + b) == if FirstVerdict(a) == Ok(None) then FirstVerdict(b) else FirstVerdict(a)
  {
    if a != [] {
      assert (a + b)[0] == a[0];
      assert (a + b)[1..] == a[1..] + b;
      FirstVerdictAppend(a[1..], b);
    } else {
      assert a + b == b;
    }
  }

  /** The recursive search returns exactly what the first decisive element in document order decides. */
  lemma {:induction false} FindIsFirstInPreOrder(e: Elem)
    ensures Find(e) == FirstVerdict(PreOrder(e))
    decreases e, 1, 0
  {
    FindInChildrenIsFirstInPreOrder(e, 0);
    FirstVerdictAppend([e], PreOrderOfChildren(e, 0));
  }

  lemma {:induction false} FindInChildrenIsFirstInPreOrder(e: Elem, j: nat)
    ensures FindInChildren(e, j) == FirstVerdict(PreOrderOfChildren(e, j))
    decreases e, 0, |e.children| - j
  {
    if j < |e.children| {
      FindIsFirstInPreOrder(e.children[j]);
      FindInChildrenIsFirstInPreOrder(e, j + 1);
      FirstVerdictAppend(PreOrder(e.children[j]), PreOrderOfChildren(e, j + 1));
    }
  }

  /**
   * The loop over the children stops at the first child whose search yields
   * bytes or fails, and returns what that child yields.
   */
  lemma {:induction false} FirstDecisiveChildDecides(e: Elem, j: nat, m: nat)
    requires j <= m < |e.children|
    requires forall l :: j <= l < m ==> Find(e.children[l]) == Ok(None)
    requires Find(e.children[m]) != Ok(None)
    ensures FindInChildren(e, j) == Find(e.children[m])
    decreases m - j
  {
    if j < m {
      FirstDecisiveChildDecides(e, j + 1, m);
    }
  }

  /** The loop over the children from `j` finds nothing exactly when no child's search yields anything. */
  lemma {:induction false} NoChildDecidesIff(e: Elem, j: nat)
    ensures FindInChildren(e, j) == Ok(None) <==> forall l :: j <= l < |e.children| ==> Find(e.children[l]) == Ok(None)
    decreases |e.children| - j
  {
    if j < |e.children| {
      NoChildDecidesIff(e, j + 1);
    }
  }

  // ---------------------------------------------------------------------
  // What a result means
  // ---------------------------------------------------------------------

  /**
   * `n` is the sensor node carrying `b`: a dict whose CalibrationData pairs
   * all decode, some pair of which names the sensor, and whose LAST
   * CalibrationData pair decodes to the non-empty bytes `b`; identity and
   * payload both sit among the pairs of this one dict.
   */
  ghost predicate IsSensorDict(n: Elem, b: Bytes)
  {
    var cs := n.children;
    var ps := PairStarts(cs, 0);
    && n.tag == "dict"
    && AllPayloadsDecode(cs, ps)
    && SomePairNamesSensor(cs, ps)
    && (exists k :: IsLastPayload(cs, ps, k) && Base64.Decode(PayloadText(cs, ps[k])) == Some(b))
    && |b| > 0
  }

  /** An element settles the search with `b` exactly when it is the sensor node carrying `b`. */
  lemma HitIffSensorDict(n: Elem, b: Bytes)
    ensures NodeVerdict(n) == Hit(b) <==> IsSensorDict(n, b)
  {
    var cs := n.children;
    var ps := PairStarts(cs, 0);
    var last := LastPayload(cs, ps);
    LastPayloadIsLast(cs, ps);
    if IsSensorDict(n, b) {
      var k :| IsLastPayload(cs, ps, k) && Base64.Decode(PayloadText(cs, ps[k])) == Some(b);
      assert last.Some?;
      var k' :| IsLastPayload(cs, ps, k') && last.value == PayloadText(cs, ps[k']);
      LastPayloadUnique(cs, ps, k, k');
    }
    if NodeVerdict(n) == Hit(b) {
      assert last.Some?;
      var k :| IsLastPayload(cs, ps, k) && last.value == PayloadText(cs, ps[k]);
      assert Base64.Decode(PayloadText(cs, ps[k])) == Some(b);
    }
  }

  /** The first element that is not Pass decides the outcome. */
  lemma {:induction false} FirstVerdictAt(ns: seq<Elem>, k: nat)
    requires k < |ns| && AllPassBefore(ns, k)
    ensures NodeVerdict(ns[k]).Hit? ==> FirstVerdict(ns) == Ok(Some(NodeVerdict(ns[k]).payload))
    ensures NodeVerdict(ns[k]).Abort? ==> FirstVerdict(ns) == Err(MalformedBase64)
  {
    if k > 0 {
      assert NodeVerdict(ns[0]).Pass?;
      assert AllPassBefore(ns[1..], k - 1) by {
        forall m | 0 <= m < k - 1 ensures NodeVerdict(ns[1..][m]).Pass? {
          assert ns[1..][m] == ns[m + 1];
        }
      }
      FirstVerdictAt(ns[1..], k - 1);
      assert ns[1..][k - 1] == ns[k];
    }
  }

  /** The first sensor node in document order wins, provided no earlier dict is malformed. */
  lemma FirstSensorDictWins(e: Elem, k: nat, b: Bytes)
    requires k < |PreOrder(e)|
    requires AllPassBefore(PreOrder(e), k)
    requires IsSensorDict(PreOrder(e)[k], b)
    ensures Find(e) == Ok(Some(b))
  {
    HitIffSensorDict(PreOrder(e)[k], b);
    FirstVerdictAt(PreOrder(e), k);
    FindIsFirstInPreOrder(e);
  }

  /** A result is the payload of a sensor node, the first decisive element in document order. */
  lemma FoundIsFirstSensorDict(e: Elem, b: Bytes)
    requires Find(e) == Ok(Some(b))
    ensures exists k :: 0 <= k < |PreOrder(e)| && AllPassBefore(PreOrder(e), k) && IsSensorDict(PreOrder(e)[k], b)
  {
    FindIsFirstInPreOrder(e);
    var ns := PreOrder(e);
    var k :| 0 <= k < |ns| && AllPassBefore(ns, k) && NodeVerdict(ns[k]) == Hit(b);
    HitIffSensorDict(ns[k], b);
  }

  /** No result exactly when no element of the tree is a sensor node or a malformed dict. */
  lemma NotFoundIff(e: Elem)
    ensures Find(e) == Ok(None) <==> forall n :: n in PreOrder(e) ==> NodeVerdict(n).Pass?
  {
    FindIsFirstInPreOrder(e);
    var ns := PreOrder(e);
    if forall n :: n in ns ==> NodeVerdict(n).Pass? {
      assert AllPassBefore(ns, |ns|);
    }
    if Find(e) == Ok(None) {
      forall n | n in ns ensures NodeVerdict(n).Pass? {
        var m :| 0 <= m < |ns| && ns[m] == n;
      }
    }
  }

  /**
   * Decoding is eager: a malformed CalibrationData pair in a dict visited
   * before any sensor node aborts the search, whether or not that dict names
   * the sensor.
   */
  lemma MalformedPayloadAborts(e: Elem, k: nat, j: nat)
    requires k < |PreOrder(e)|
    requires AllPassBefore(PreOrder(e), k)
    requires PreOrder(e)[k].tag == "dict"
    requires j in PairStarts(PreOrder(e)[k].children, 0)
    requires MalformedAt(PreOrder(e)[k].children, j)
    ensures Find(e) == Err(MalformedBase64)
  {
    var ns := PreOrder(e);
    var cs := ns[k].children;
    assert !AllPayloadsDecode(cs, PairStarts(cs, 0));
    FirstVerdictAt(ns, k);
    FindIsFirstInPreOrder(e);
  }
}
