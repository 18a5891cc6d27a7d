/** The verifier stage: fixed verifier thresholds, and the loop that
    verifies every filtered bundle in order, aborting the run on the
    first bundle that fails. */
module Verifier {
  import opened Types
  import opened PolicyBuilder

  /** The verifier options the program uses. */
  datatype VerifierOption =
    | SignedTimestamps(threshold: int)
    | ObserverTimestamps(threshold: int)
    | TransparencyLog(threshold: int)

  /** The thresholds a verifier is configured with; None means the kind of
      evidence is not required. */
  datatype Thresholds = Thresholds(
    signedTimestamps: Option<int>, observerTimestamps: Option<int>, transparencyLog: Option<int>)

  /** Applying options in order: each sets its own threshold, a later one
      overriding an earlier one of the same kind. */
  function Configure(options: seq<VerifierOption>): Thresholds
    decreases |options|
  {
    if options == [] then Thresholds(None, None, None)
    else
      var t := Configure(options[..|options| - 1]);
      match options[|options| - 1]
      case SignedTimestamps(n) => t.(signedTimestamps := Some(n))
      case ObserverTimestamps(n) => t.(observerTimestamps := Some(n))
      case TransparencyLog(n) => t.(transparencyLog := Some(n))
  }

  /** buildVerifyOptions: one signed timestamp and zero observer
      timestamps required, no transparency-log requirement, whatever the
      run's options say. */
  function BuildVerifyOptions(opts: VerificationOptions): (options: seq<VerifierOption>)
    ensures Configure(options) == Thresholds(Some(1), Some(0), None)
  {
    [SignedTimestamps(1), ObserverTimestamps(0)]
  }

  /** What a successful verification reports; produced by the library. */
  datatype Verified = Verified(statement: Option<Statement>, signer: string)

  /** One result per verified bundle, tagged with the image descriptor. */
  datatype VerificationResult = VerificationResult(bundle: Bundle, result: Verified, desc: Descriptor)

  predicate AllVerify(bundles: seq<Bundle>, policy: Policy, verify: (ProtoBundle, Policy) -> Option<Verified>) {
    forall i :: 0 <= i < |bundles| ==> verify(bundles[i].proto, policy).Some?
  }

  /** verifyBundles. verifierBuilt says whether the verifier could be made
      from the trusted root and options; verify is the library's check of
      one bundle against the policy. Either every bundle verifies and
      there is one result per bundle, in order, all with desc, or the run
      stops at the first bundle that fails. */
  method VerifyBundles(bundles: seq<Bundle>, desc: Descriptor, verifierBuilt: bool, policy: Policy,
                       verify: (ProtoBundle, Policy) -> Option<Verified>)
    returns (r: Result<seq<VerificationResult>, Failure>)
    ensures !verifierBuilt ==> r == Err(VerifierRejected)
    ensures verifierBuilt ==> (r.Ok? <==> AllVerify(bundles, policy, verify))
    ensures r.Ok? ==>
      && |r.value| == |bundles|
      && forall i :: 0 <= i < |bundles| ==>
           && r.value[i].bundle == bundles[i]
           && r.value[i].desc == desc
           && verify(bundles[i].proto, policy) == Some(r.value[i].result)
    ensures verifierBuilt && r.Err? ==>
      && r.error.VerificationPanic?
      && r.error.index < |bundles|
      && verify(bundles[r.error.index].proto, policy).None?
      && AllVerify(bundles[..r.error.index], policy, verify)
  {
    if !verifierBuilt {
      return Err(VerifierRejected);
    }
    var results: seq<VerificationResult> := [];
    var i := 0;
    while i < |bundles|
      invariant 0 <= i <= |bundles|
      invariant |results| == i
      invariant forall j :: 0 <= j < i ==>
        && results[j].bundle == bundles[j]
        && results[j].desc == desc
        && verify(bundles[j].proto, policy) == Some(results[j].result)
    {
      var outcome := verify(bundles[i].proto, policy);
      if outcome.Some? {
        results := results + [VerificationResult(bundles[i], outcome.value, desc)];
      } else {
        assert AllVerify(bundles[..i], policy, verify) by {
          forall j | 0 <= j < i ensures verify(bundles[..i][j].proto, policy).Some? {
            assert bundles[..i][j] == bundles[j];
          }
        }
        return Err(VerificationPanic(i));
      }
      i := i + 1;
    }
    r := Ok(results);
  }
}
