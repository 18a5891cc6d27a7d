/** Values shared by the stages of the attestation verification pipeline:
    what the registry answers, the bundles decoded from it, the failures
    that abort a run, and the options the command line fills in. */
module Types {

  datatype Option<+T> = None | Some(value: T)

  datatype Result<+T, +E> = Ok(value: T) | Err(error: E)

  newtype byte = x: int | 0 <= x < 256

  /** A content digest as the registry client reports it: the algorithm
      name ("sha256") and the digest written in hexadecimal. */
  datatype Hash = Hash(algorithm: string, hex: string)

  /** The descriptor an image reference resolves to; only its digest is used. */
  datatype Descriptor = Descriptor(digest: Hash)

  /** An in-toto statement; its predicate body is carried as opaque text. */
  datatype Statement = Statement(predicateType: string, body: string)

  /** A DSSE envelope: the declared payload type, and what JSON decoding
      makes of the payload (None when the payload does not parse). */
  datatype DsseEnvelope = DsseEnvelope(payloadType: string, payload: Option<Statement>)

  /** A decoded sigstore bundle: its DSSE envelope when it has one (a
      bundle signing a plain message has none) and the rest of its
      content, certificates and log or timestamp proofs, as opaque bytes. */
  datatype ProtoBundle = ProtoBundle(dsse: Option<DsseEnvelope>, material: seq<byte>)

  /** The program's own bundle record: a decoded bundle and the statement
      the predicate filter parsed from it (None when no filter ran). */
  datatype Bundle = Bundle(proto: ProtoBundle, statement: Option<Statement>)

  /** What the registry gives back when the blob behind one referrer is
      requested: each failing step of the download, or the bytes and the
      outcome of decoding them as a bundle. */
  datatype BlobOutcome =
    | ImageUnavailable                                 // fetching the referrer image fails
    | LayersUnavailable                                // listing its layers fails
    | NoLayers                                         // the image has no layer at all
    | LayerUnreadable                                  // opening or reading the first layer fails
    | Blob(bytes: seq<byte>, decoded: Option<ProtoBundle>)

  /** One entry of the referrers index of an image. */
  datatype Referrer = Referrer(artifactType: string, digest: Hash, blob: BlobOutcome)

  /** The registry as one run sees it: the outcome of resolving the image
      reference, and the outcome of listing the referrers of that digest. */
  datatype Registry = Registry(head: Option<Descriptor>, referrers: Option<seq<Referrer>>)

  /** Every way a run can end early. Indices name the referrer or bundle
      at fault. */
  datatype Failure =
    | HeadFailed                       // the image reference does not resolve
    | ReferrersFailed                  // the referrers index cannot be listed
    | TooManyReferrers(limit: int)     // more referrers than the limit
    | ReferrerImageFailed(index: nat)  // the referrer image cannot be fetched
    | ReferrerLayerFailed(index: nat)  // its layer cannot be listed, opened or read
    | LayerIndexPanic(index: nat)      // its layer list is empty: indexing the first layer panics
    | BundleUnmarshalFailed(index: nat) // its layer is not a bundle
    | DigestNotHex                     // the resolved digest is not valid hexadecimal
    | IdentityRejected                 // the certificate identity cannot be built
    | VerifierRejected                 // the verifier cannot be built from root and options
    | VerificationPanic(index: nat)    // the bundle at this index fails verification

  /** The run's options. Every field is a pointer in the program, so
      writing one is seen by every holder of the options. */
  class VerificationOptions {
    var predicateType: string
    var limit: int
    var oidcIssuer: string
    var subject: string

    constructor (predicateType: string, limit: int, oidcIssuer: string, subject: string)
      ensures this.predicateType == predicateType && this.limit == limit
      ensures this.oidcIssuer == oidcIssuer && this.subject == subject
    {
      this.predicateType := predicateType;
      this.limit := limit;
      this.oidcIssuer := oidcIssuer;
      this.subject := subject;
    }
  }
}
