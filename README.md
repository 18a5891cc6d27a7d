# Attestation bundle selection for container images

A model of the selection logic of `github-signing-demo`. This Go command
checks that a container image carries a valid sigstore provenance
attestation. The model covers four stages:

- **Bundle collection** (`BundleFetcher`, `fetchBundles`). The image is
  resolved to a descriptor and its referrers are listed. A listing longer
  than the limit is refused before any blob is downloaded. Then every
  referrer whose artifact type starts with
  `application/vnd.dev.sigstore.bundle` is downloaded and decoded, in
  referrer order. Other referrers are skipped. The first download or
  decode failure aborts the whole call.
- **Predicate filter** (`PredicateFilter`, the second half of
  `fetchBundles`). With an empty predicate type the bundles pass through
  unchanged and carry no statement. Otherwise a bundle is kept only when
  all four conditions hold: it has a DSSE envelope, its payload type is
  `application/vnd.in-toto+json`, its payload parses, and the statement's
  predicate type equals the request. A kept bundle carries its statement.
  Every other bundle is dropped silently.
- **Policy construction** (`PolicyBuilder`, `Hex`, `buildPolicy`). The
  resolved digest's hex string is decoded. A subject containing `*`
  becomes the subject pattern, and the caller's subject is cleared in
  place. The policy pairs the digest constraint with the certificate
  identity.
- **Verification** (`Verifier`, `buildVerifyOptions` and `verifyBundles`).
  The verifier thresholds are fixed: one signed timestamp and zero
  observer timestamps. Every bundle is verified in order. Each success
  gives one result tagged with the descriptor. The first failure aborts
  the run.

Registry calls, JSON and protobuf decoding, construction of the
certificate identity and cryptographic verification are library code.
The model takes their outcomes as inputs:

- `Registry` holds the outcomes of resolving the image and of listing its
  referrers.
- Each `Referrer` carries a `BlobOutcome`: which download step fails, or
  the bytes and whether they decode to a bundle.
- Each `DsseEnvelope` carries the outcome of parsing its payload.
- `BuildPolicy` takes a predicate `identityAccepted` standing for the
  library's identity constructor.
- `VerifyBundles` takes a flag saying whether the verifier could be built,
  and a function `verify` standing for the library's check of one bundle.

Downloads are a trace. `CollectBundles` and `FetchBundles` return
`pulled`, the positions of the referrers whose blob was requested, in
order. This is how "no blob is fetched over the limit" and "fetching
stops at the first failure" are stated.

Four behaviours of the code are easy to miss; the model follows the code:

- A referrer image with no layers is not an error return in the code.
  Indexing its first layer panics (main.go:135). The model has a separate
  failure for it, `LayerIndexPanic`, which aborts the call like the other
  failures.
- A bundle without a DSSE envelope is dropped by a non-empty filter
  (main.go:155). The code checks that an envelope exists before it checks
  the payload type.
- A bundle that fails verification does not produce an error return. The
  code panics (main.go:251). The model returns `VerificationPanic(i)` for
  the first failing bundle `i`.
- The limit is a signed integer. A negative limit refuses every listing,
  even an empty one.

## Model

| member | source | states |
|---|---|---|
| `BundleFetcher.FetchBundles` | main.go:96-176 | Failure to resolve or list gives an error and no download. More referrers than the limit gives `TooManyReferrers` and an empty download trace. Otherwise the downloads are those of collection, and the result is collection's error or the filtered bundles with the resolved descriptor. |
| `BundleFetcher.CollectBundles` | main.go:122-149 | The loop returns exactly `Collect(refs)`, the bundles or the first failure (each blob's outcome given by `Pull`), and exactly `Downloads(refs)`, the bundle referrers requested up to and including the first failure. |
| `BundleFetcher.BundleIndices` | main.go:122-125 | The bundle referrers' positions are increasing and in range. A position is listed exactly when its artifact type has the sigstore bundle prefix. |
| `BundleFetcher.FailureIsFinal` | main.go:127-147 | Once a prefix fails, later referrers are neither downloaded nor able to change the failure. |
| `BundleFetcher.CollectSucceedsIff` | main.go:122-148 | Collection succeeds if and only if every bundle referrer's blob downloads and decodes. |
| `BundleFetcher.CollectedInReferrerOrder` | main.go:122-148 | After success there is one bundle per bundle referrer, in referrer order, each the decoded blob with no statement. At most as many bundles as referrers. Every bundle referrer, and no other, was downloaded. |
| `BundleFetcher.FailureIsLastDownload` | main.go:127-147 | The failing blob is the last one requested, and everything before it was collected successfully. |
| `BundleFetcher.CollectFailsAtFirstBadReferrer` | main.go:127-147 | A failure is the error of the first bundle referrer whose blob fails. All earlier bundle referrers succeeded. The downloads are exactly the bundle referrers up to that one. |
| `BundleFetcher.EmptyPredicatePassesEverything` | main.go:148-175 | With an empty predicate type, the output is the collected bundles unchanged, one per bundle referrer, none with a statement. |
| `PredicateFilter.Kept` | main.go:164-168 | A kept bundle is the same decoded bundle, carrying a statement of the requested predicate type. |
| `PredicateFilter.AdmittedIndices` | main.go:153-164 | The kept positions are increasing and in range. A position is kept exactly when the four conditions hold. |
| `PredicateFilter.FilterBundles` | main.go:151-175 | The filtering loop returns exactly `FilterByPredicate(bundles, predicateType)`: the input itself for an empty predicate type, otherwise the admitted bundles with their statements. |
| `PredicateFilter.SelectIsAdmittedSubsequence` | main.go:152-172 | A non-empty filter outputs the admitted bundles in input order, each with its parsed statement. |
| `PredicateFilter.FilterByPredicateSpec` | main.go:151-175 | The output is never longer than the input. An empty predicate type is the identity. Otherwise position i is kept if and only if the four conditions hold, in order, with its statement. |
| `PredicateFilter.SelectedCarryStatement` | main.go:164-168 | Every bundle a non-empty filter returns has a statement of the requested type and comes from an admitted input bundle. |
| `PredicateFilter.MalformedDropped` | main.go:154-162 | A bundle with a missing envelope, a different payload type or an unparsable payload is dropped without error: nothing the filter returns comes from it. |
| `Hex.Decode` | main.go:179 | A successful decode has half as many bytes as the input has characters. |
| `Hex.DecodeSucceedsIff` | main.go:179-182 | Decoding fails if and only if the length is odd or some character is not a hex digit. |
| `Hex.DecodeByteAt` | main.go:179 | Byte k is 16 times the value of digit 2k plus the value of digit 2k+1. |
| `Hex.DecodeEncode` | main.go:179-183 | Decoding inverts lower-case hex encoding. |
| `PolicyBuilder.SubjectMode` | main.go:190-194 | The literal subject never contains `*`. At most one of literal and pattern is set. Together they give back the subject. The pattern is set exactly when the subject contains `*`. |
| `PolicyBuilder.BuildPolicy` | main.go:178-200 | A bad digest (no `DigestConstraint`) fails with the caller's subject untouched. Otherwise the caller's subject becomes the literal of the chosen mode. The identity is built from the exact issuer, no issuer pattern, and the literal and pattern. The policy pairs the decoded digest with that identity, unless the identity is refused. |
| `PolicyBuilder.DigestConstraint` | main.go:179-183 | The digest constraint exists if and only if the hex digest decodes. Otherwise the error is `DigestNotHex`. It keeps the descriptor's algorithm and has half as many bytes as the hex has characters. |
| `PolicyBuilder.RegistryDigestAccepted` | main.go:179-183 | A descriptor whose digest is in the registry's lower-case hex form yields the constraint on exactly those bytes, so the policy is never refused with `DigestNotHex` for it. |
| `Verifier.BuildVerifyOptions` | main.go:202-211 | Whatever the options, the verifier requires one signed timestamp, zero observer timestamps and no transparency-log entry. |
| `Verifier.VerifyBundles` | main.go:239-256 | A verifier that cannot be built gives an error. Otherwise the run succeeds if and only if every bundle verifies. Then there is one result per bundle, in order, each with that bundle, its verification outcome and the descriptor. On failure, the run stops at the first failing bundle. |

## Left out

- Command-line parsing, usage text, the orchestration in `verifysigstore` and the JSON printing of `results[0]` (main.go:44-94). This is process plumbing. As written, `results[0]` panics when no bundle survives the filter.
- Parsing the image reference and the registry transport and authentication (main.go:63-66, 99-116). Their outcomes are the `Registry` inputs.
- The separate steps of a blob download (`remote.Image`, `Layers`, `Uncompressed`, `io.ReadAll`, main.go:127-142). Their outcomes are the `BlobOutcome` of each referrer.
- Protobuf and JSON decoding (main.go:144, 160). These are abstract success or failure outcomes carried in the data.
- Trust-root acquisition, `getTrustedRoot` (main.go:213-237). It is an embedded bootstrap document, a TUF client and network access. Its only visible effect, a failure that ends the run, is not modelled.
- The internals of `NewShortCertificateIdentity`, `NewPolicy`, `NewSignedEntityVerifier` and `Verify` (main.go:195-199, 240-247). These are library code. They are inputs here: `identityAccepted`, `verifierBuilt` and `verify`. The model does not state what the library checks. In particular it does not prove that a bundle with a different digest is rejected.
- `Verifier.Configure` reads each verifier option as setting its own threshold, with a later option winning. That is how the options are meant to combine. The library's own configuration code is not modelled.
- Pointer sharing between the program's `Bundle` records and their protobuf bundles. Bundles are values here, and a kept bundle is a new value with the same decoded bundle.
- verify_test.go. It is an end-to-end run against a live registry and TUF repository, with no logic of its own.
