/** The predicate filter that ends bundle collection: with no predicate
    type requested every bundle passes unchanged; otherwise only bundles
    whose DSSE envelope holds an in-toto statement of exactly that
    predicate type are kept, each together with its parsed statement. */
module PredicateFilter {
  import opened Types

  const InTotoPayloadType := "application/vnd.in-toto+json"

  /** The four conditions under which a bundle survives a filter for
      predicateType: a DSSE envelope, the in-toto payload type, a payload
      that parses, and a predicate type equal to the one requested. */
  predicate Admits(b: Bundle, predicateType: string) {
    && b.proto.dsse.Some?
    && b.proto.dsse.value.payloadType == InTotoPayloadType
    && b.proto.dsse.value.payload.Some?
    && b.proto.dsse.value.payload.value.predicateType == predicateType
  }

  /** An admitted bundle as it is kept: the same decoded bundle, now
      carrying the statement parsed from its payload. */
  function Kept(b: Bundle, predicateType: string): (k: Bundle)
    requires Admits(b, predicateType)
    ensures k.proto == b.proto
    ensures k.statement.Some? && k.statement.value.predicateType == predicateType
  {
    Bundle(b.proto, b.proto.dsse.value.payload)
  }

  /** The bundles a non-empty filter keeps, in input order. */
  function Select(bundles: seq<Bundle>, predicateType: string): seq<Bundle>
    decreases |bundles|
  {
    if bundles == [] then []
    else
      var n := |bundles| - 1;
      Select(bundles[..n], predicateType)
        + if Admits(bundles[n], predicateType) then [Kept(bundles[n], predicateType)] else []
  }

  /** The positions of the admitted bundles, in increasing order. */
  function AdmittedIndices(bundles: seq<Bundle>, predicateType: string): (idx: seq<nat>)
    ensures forall k :: 0 <= k < |idx| ==> idx[k] < |bundles| && Admits(bundles[idx[k]], predicateType)
    ensures forall k, l :: 0 <= k < l < |idx| ==> idx[k] < idx[l]
    ensures forall i :: 0 <= i < |bundles| && Admits(bundles[i], predicateType) ==> i in idx
    decreases |bundles|
  {
    if bundles == [] then []
    else
      var n := |bundles| - 1;
      AdmittedIndices(bundles[..n], predicateType)
        + if Admits(bundles[n], predicateType) then [n] else []
  }

  /** What the filter returns for a requested predicate type. */
  function FilterByPredicate(bundles: seq<Bundle>, predicateType: string): seq<Bundle>
  {
    if predicateType == "" then bundles else Select(bundles, predicateType)
  }

  /** The filter as the program runs it: a loop that appends each bundle
      passing the nested checks, skipping the others without error. */
  method FilterBundles(bundles: seq<Bundle>, predicateType: string) returns (filtered: seq<Bundle>)
    ensures filtered == FilterByPredicate(bundles, predicateType)
  {
    if predicateType == "" {
      return bundles;
    }
    filtered := [];
    var i := 0;
    while i < |bundles|
      invariant 0 <= i <= |bundles|
      invariant filtered == Select(bundles[..i], predicateType)
    {
      var b := bundles[i];
      assert bundles[..i + 1][..i] == bundles[..i];
      match b.proto.dsse {
        case None =>
        case Some(envelope) =>
          if envelope.payloadType == InTotoPayloadType {
            match envelope.payload {
              case None =>
              case Some(statement) =>
                if statement.predicateType == predicateType {
                  filtered := filtered + [Bundle(b.proto, Some(statement))];
                }
            }
          }
      }
      i := i + 1;
    }
    assert bundles[..|bundles|] == bundles;
  }

  /** A non-empty filter's output is the subsequence of admitted bundles,
      in input order, each carrying its statement. */
  lemma {:induction false} SelectIsAdmittedSubsequence(bundles: seq<Bundle>, predicateType: string)
    ensures var idx := AdmittedIndices(bundles, predicateType);
      && |Select(bundles, predicateType)| == |idx|
      && forall k :: 0 <= k < |idx| ==> Select(bundles, predicateType)[k] == Kept(bundles[idx[k]], predicateType)
    decreases |bundles|
  {
    if bundles != [] {
      var n := |bundles| - 1;
      SelectIsAdmittedSubsequence(bundles[..n], predicateType);
      var idx0 := AdmittedIndices(bundles[..n], predicateType);
      forall k | 0 <= k < |idx0| ensures bundles[..n][idx0[k]] == bundles[idx0[k]] {
      }
    }
  }

  /** The filter never grows its input: with the empty predicate type it is
      the identity, otherwise it keeps a bundle exactly when the four
      conditions hold, in order, with its statement, and nothing else. */
  lemma {:induction false} FilterByPredicateSpec(bundles: seq<Bundle>, predicateType: string)
    ensures |FilterByPredicate(bundles, predicateType)| <= |bundles|
    ensures predicateType == "" ==> FilterByPredicate(bundles, predicateType) == bundles
    ensures predicateType != "" ==>
      var out, idx := FilterByPredicate(bundles, predicateType), AdmittedIndices(bundles, predicateType);
      && |out| == |idx|
      && (forall k :: 0 <= k < |out| ==> out[k] == Kept(bundles[idx[k]], predicateType))
      && (forall i :: 0 <= i < |bundles| ==> (i in idx <==> Admits(bundles[i], predicateType)))
  {
    SelectIsAdmittedSubsequence(bundles, predicateType);
    IndicesBound(AdmittedIndices(bundles, predicateType), |bundles|);
  }

  /** Every kept bundle carries a statement of the requested type. */
  lemma SelectedCarryStatement(bundles: seq<Bundle>, predicateType: string, b: Bundle)
    requires predicateType != "" && b in FilterByPredicate(bundles, predicateType)
    ensures b.statement.Some? && b.statement.value.predicateType == predicateType
    ensures exists i :: 0 <= i < |bundles| && bundles[i].proto == b.proto && Admits(bundles[i], predicateType)
  {
    SelectIsAdmittedSubsequence(bundles, predicateType);
    var idx := AdmittedIndices(bundles, predicateType);
    var k :| 0 <= k < |idx| && Select(bundles, predicateType)[k] == b;
    assert bundles[idx[k]].proto == b.proto;
  }

  /** A bundle whose envelope is missing, of another payload type, or
      unparsable is dropped without error: nothing the filter returns
      comes from it. */
  lemma MalformedDropped(bundles: seq<Bundle>, predicateType: string, i: nat)
    requires predicateType != "" && i < |bundles|
    requires || bundles[i].proto.dsse.None?
             || bundles[i].proto.dsse.value.payloadType != InTotoPayloadType
             || bundles[i].proto.dsse.value.payload.None?
    ensures forall b :: b in FilterByPredicate(bundles, predicateType) ==> b.proto != bundles[i].proto
  {
    forall b | b in FilterByPredicate(bundles, predicateType) ensures b.proto != bundles[i].proto {
      SelectedCarryStatement(bundles, predicateType, b);
    }
  }

  /** A strictly increasing list of positions below n has at most n entries. */
  lemma {:induction false} IndicesBound(idx: seq<nat>, n: nat)
    requires forall k :: 0 <= k < |idx| ==> idx[k] < n
    requires forall k, l :: 0 <= k < l < |idx| ==> idx[k] < idx[l]
    ensures |idx| <= n
    decreases n
  {
    if idx != [] {
      var m := |idx| - 1;
      forall k | 0 <= k < m ensures idx[..m][k] < idx[m] { }
      IndicesBound(idx[..m], idx[m]);
    }
  }
}
