/** Bundle collection: resolve the image, list its referrers, refuse a
    listing longer than the limit before downloading anything, then
    download and decode the blob of every referrer whose artifact type
    names a sigstore bundle, in referrer order, stopping at the first
    failure; finally apply the predicate filter. */
module BundleFetcher {
  import opened Types
  import opened PredicateFilter

  const BundleArtifactTypePrefix := "application/vnd.dev.sigstore.bundle"

  predicate HasPrefix(s: string, prefix: string) {
    |prefix| <= |s| && s[..|prefix|] == prefix
  }

  predicate IsBundleReferrer(r: Referrer) {
    HasPrefix(r.artifactType, BundleArtifactTypePrefix)
  }

  /** The outcome of downloading and decoding the blob of the referrer at
      position i: each failing download step has its own error. */
  function Pull(r: Referrer, i: nat): Result<ProtoBundle, Failure> {
    match r.blob
    case ImageUnavailable => Err(ReferrerImageFailed(i))
    case LayersUnavailable => Err(ReferrerLayerFailed(i))
    case NoLayers => Err(LayerIndexPanic(i))
    case LayerUnreadable => Err(ReferrerLayerFailed(i))
    case Blob(_, decoded) =>
      if decoded.Some? then Ok(decoded.value) else Err(BundleUnmarshalFailed(i))
  }

  /** The positions of the bundle referrers, in increasing order. */
  function BundleIndices(refs: seq<Referrer>): (idx: seq<nat>)
    ensures forall k :: 0 <= k < |idx| ==> idx[k] < |refs| && IsBundleReferrer(refs[idx[k]])
    ensures forall k, l :: 0 <= k < l < |idx| ==> idx[k] < idx[l]
    ensures forall i :: 0 <= i < |refs| && IsBundleReferrer(refs[i]) ==> i in idx
    decreases |refs|
  {
    if refs == [] then []
    else
      var n := |refs| - 1;
      BundleIndices(refs[..n]) + if IsBundleReferrer(refs[n]) then [n] else []
  }

  /** The bundles collected from a referrer list, or the first failure. */
  function Collect(refs: seq<Referrer>): Result<seq<Bundle>, Failure>
    decreases |refs|
  {
    if refs == [] then Ok([])
    else
      var n := |refs| - 1;
      match Collect(refs[..n])
      case Err(e) => Err(e)
      case Ok(bundles) =>
        if !IsBundleReferrer(refs[n]) then Ok(bundles)
        else match Pull(refs[n], n)
          case Err(e) => Err(e)
          case Ok(b) => Ok(bundles + [Bundle(b, None)])
  }

  /** The positions whose blobs are requested while collecting: those of
      the bundle referrers, up to and including the first that fails. */
  function Downloads(refs: seq<Referrer>): seq<nat>
    decreases |refs|
  {
    if refs == [] then []
    else
      var n := |refs| - 1;
      if Collect(refs[..n]).Err? || !IsBundleReferrer(refs[n]) then Downloads(refs[..n])
      else Downloads(refs[..n]) + [n]
  }

  predicate AllPullable(refs: seq<Referrer>) {
    forall i :: 0 <= i < |refs| && IsBundleReferrer(refs[i]) ==> Pull(refs[i], i).Ok?
  }

  /** The collection loop as the program runs it. `pulled` lists, in
      order, the referrers whose blob was requested from the registry. */
  method CollectBundles(refs: seq<Referrer>) returns (r: Result<seq<Bundle>, Failure>, pulled: seq<nat>)
    ensures r == Collect(refs) && pulled == Downloads(refs)
  {
    var bundles := [];
    pulled := [];
    var i := 0;
    while i < |refs|
      invariant 0 <= i <= |refs|
      invariant Collect(refs[..i]) == Ok(bundles)
      invariant pulled == Downloads(refs[..i])
    {
      assert refs[..i + 1][..i] == refs[..i];
      if IsBundleReferrer(refs[i]) {
        pulled := pulled + [i];
        var failure := None;
        match refs[i].blob {
          case ImageUnavailable => failure := Some(ReferrerImageFailed(i));
          case LayersUnavailable => failure := Some(ReferrerLayerFailed(i));
          case NoLayers => failure := Some(LayerIndexPanic(i));
          case LayerUnreadable => failure := Some(ReferrerLayerFailed(i));
          case Blob(_, decoded) =>
            if decoded.None? {
              failure := Some(BundleUnmarshalFailed(i));
            } else {
              bundles := bundles + [Bundle(decoded.value, None)];
            }
        }
        if failure.Some? {
          r := Err(failure.value);
          FailureIsFinal(refs, i + 1);
          return;
        }
      }
      i := i + 1;
    }
    assert refs[..|refs|] == refs;
    r := Ok(bundles);
  }

  /** fetchBundles: the registry calls, the limit check, collection and the
      predicate filter. A listing longer than the limit fails before any
      blob is requested. */
  method FetchBundles(registry: Registry, limit: int, predicateType: string)
    returns (r: Result<(seq<Bundle>, Descriptor), Failure>, pulled: seq<nat>)
    ensures registry.head.None? ==> r == Err(HeadFailed) && pulled == []
    ensures registry.head.Some? && registry.referrers.None? ==> r == Err(ReferrersFailed) && pulled == []
    ensures registry.head.Some? && registry.referrers.Some? && |registry.referrers.value| > limit ==>
      r == Err(TooManyReferrers(limit)) && pulled == []
    ensures registry.head.Some? && registry.referrers.Some? && |registry.referrers.value| <= limit ==>
      var refs := registry.referrers.value;
      && pulled == Downloads(refs)
      && r == match Collect(refs)
              case Err(e) => Err(e)
              case Ok(bundles) => Ok((FilterByPredicate(bundles, predicateType), registry.head.value))
  {
    pulled := [];
    if registry.head.None? {
      return Err(HeadFailed), pulled;
    }
    var desc := registry.head.value;
    if registry.referrers.None? {
      return Err(ReferrersFailed), pulled;
    }
    var refs := registry.referrers.value;
    if |refs| > limit {
      return Err(TooManyReferrers(limit)), pulled;
    }
    var collected;
    collected, pulled := CollectBundles(refs);
    if collected.Err? {
      return Err(collected.error), pulled;
    }
    var filtered := FilterBundles(collected.value, predicateType);
    r := Ok((filtered, desc));
  }

  /** Once collection of a prefix has failed, the rest of the list is
      neither downloaded nor able to change the outcome. */
  lemma {:induction false} FailureIsFinal(refs: seq<Referrer>, m: nat)
    requires m <= |refs| && Collect(refs[..m]).Err?
    ensures Collect(refs) == Collect(refs[..m]) && Downloads(refs) == Downloads(refs[..m])
    decreases |refs| - m
  {
    if m == |refs| {
      assert refs[..m] == refs;
    } else {
      var n := |refs| - 1;
      assert refs[..n][..m] == refs[..m];
      FailureIsFinal(refs[..n], m);
    }
  }

  /** Collection succeeds exactly when every bundle referrer's blob is
      downloaded and decodes. */
  lemma {:induction false} CollectSucceedsIff(refs: seq<Referrer>)
    ensures Collect(refs).Ok? <==> AllPullable(refs)
    decreases |refs|
  {
    if refs != [] {
      var n := |refs| - 1;
      CollectSucceedsIff(refs[..n]);
      assert AllPullable(refs) <==>
        AllPullable(refs[..n]) && (IsBundleReferrer(refs[n]) ==> Pull(refs[n], n).Ok?) by {
        if AllPullable(refs[..n]) && (IsBundleReferrer(refs[n]) ==> Pull(refs[n], n).Ok?) {
          forall i | 0 <= i < |refs| && IsBundleReferrer(refs[i]) ensures Pull(refs[i], i).Ok? {
            if i < n { assert refs[..n][i] == refs[i]; }
          }
        }
        if AllPullable(refs) {
          forall i | 0 <= i < n && IsBundleReferrer(refs[..n][i]) ensures Pull(refs[..n][i], i).Ok? {
            assert refs[..n][i] == refs[i];
          }
        }
      }
    }
  }

  /** A successful collection holds one bundle per bundle referrer, in
      referrer order, none carrying a statement, and every bundle
      referrer's blob, and no other, was requested. */
  lemma {:induction false} CollectedInReferrerOrder(refs: seq<Referrer>)
    requires Collect(refs).Ok?
    ensures var bundles, idx := Collect(refs).value, BundleIndices(refs);
      && |bundles| == |idx| <= |refs|
      && (forall k :: 0 <= k < |idx| ==> Pull(refs[idx[k]], idx[k]) == Ok(bundles[k].proto) && bundles[k].statement.None?)
      && Downloads(refs) == idx
    decreases |refs|
  {
    if refs != [] {
      var n := |refs| - 1;
      CollectedInReferrerOrder(refs[..n]);
      var idx0 := BundleIndices(refs[..n]);
      forall k | 0 <= k < |idx0| ensures refs[..n][idx0[k]] == refs[idx0[k]] { }
    }
    IndicesBound(BundleIndices(refs), |refs|);
  }

  /** A failed collection fails on the last blob it requested, after a
      successful collection of everything before it. */
  lemma {:induction false} FailureIsLastDownload(refs: seq<Referrer>)
    requires Collect(refs).Err?
    ensures Downloads(refs) != []
    ensures var i := Downloads(refs)[|Downloads(refs)| - 1];
      && i < |refs| && IsBundleReferrer(refs[i])
      && Collect(refs[..i]).Ok?
      && Pull(refs[i], i) == Err(Collect(refs).error)
      && Downloads(refs) == Downloads(refs[..i]) + [i]
    decreases |refs|
  {
    var n := |refs| - 1;
    if Collect(refs[..n]).Err? {
      FailureIsFinal(refs, n);
      FailureIsLastDownload(refs[..n]);
      var i := Downloads(refs[..n])[|Downloads(refs[..n])| - 1];
      assert refs[..n][i] == refs[i];
      assert refs[..n][..i] == refs[..i];
    }
  }

  /** A failed collection stops at a bundle referrer whose blob fails,
      with that failure; every earlier bundle referrer was fetched and
      decoded, and the last blob requested is the failing one. */
  lemma CollectFailsAtFirstBadReferrer(refs: seq<Referrer>)
    requires Collect(refs).Err?
    ensures Downloads(refs) != []
    ensures var i := Downloads(refs)[|Downloads(refs)| - 1];
      && i < |refs| && IsBundleReferrer(refs[i])
      && Pull(refs[i], i) == Err(Collect(refs).error)
      && AllPullable(refs[..i])
      && Downloads(refs) == BundleIndices(refs[..i + 1])
  {
    FailureIsLastDownload(refs);
    var i := Downloads(refs)[|Downloads(refs)| - 1];
    CollectSucceedsIff(refs[..i]);
    CollectedInReferrerOrder(refs[..i]);
    assert refs[..i + 1][..i] == refs[..i];
  }

  /** With no predicate type requested, fetching returns exactly the
      collected bundles, one per bundle referrer, none with a statement. */
  lemma {:induction false} EmptyPredicatePassesEverything(refs: seq<Referrer>)
    requires Collect(refs).Ok?
    ensures var out := FilterByPredicate(Collect(refs).value, "");
      && out == Collect(refs).value
      && |out| == |BundleIndices(refs)|
      && forall b :: b in out ==> b.statement.None?
  {
    CollectedInReferrerOrder(refs);
  }
}
