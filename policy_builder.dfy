/** The verification policy: the resolved digest, decoded from hex, AND a
    certificate identity made of the exact issuer and the subject, which
    is matched literally or, when it holds a '*', as a pattern. */
module PolicyBuilder {
  import opened Types
  import Hex

  /** The digest constraint: algorithm name and raw digest bytes. */
  datatype ArtifactDigest = ArtifactDigest(algorithm: string, digest: seq<byte>)

  /** The arguments the certificate identity is built from: issuer and
      issuer pattern, subject literal and subject pattern. */
  datatype CertificateIdentity = CertificateIdentity(
    issuer: string, issuerRegexp: string, subject: string, subjectRegexp: string)

  /** Both constraints; a bundle is accepted only if it meets both. */
  datatype Policy = Policy(artifact: ArtifactDigest, identity: CertificateIdentity)

  /** How the subject is matched: literally, or as a pattern. */
  datatype SubjectMatch = SubjectMatch(literal: string, pattern: string)

  /** The identity mode chosen for a configured subject. No wildcard ever
      reaches the literal matcher, at most one of the two is set, and
      together they give back the subject. */
  function SubjectMode(subject: string): (m: SubjectMatch)
    ensures '*' !in m.literal
    ensures m.literal == "" || m.pattern == ""
    ensures m.literal + m.pattern == subject
    ensures m.pattern != "" <==> '*' in subject
  {
    if '*' in subject then SubjectMatch("", subject) else SubjectMatch(subject, "")
  }

  /** The digest constraint of a descriptor: its algorithm and its hex
      digest decoded to bytes, or DigestNotHex when the hex does not decode. */
  function DigestConstraint(desc: Descriptor): (r: Result<ArtifactDigest, Failure>)
    ensures r.Ok? <==> Hex.Decode(desc.digest.hex).Some?
    ensures r.Err? ==> r.error == DigestNotHex
    ensures r.Ok? ==> r.value.algorithm == desc.digest.algorithm && 2 * |r.value.digest| == |desc.digest.hex|
  {
    match Hex.Decode(desc.digest.hex)
    case None => Err(DigestNotHex)
    case Some(bytes) => Ok(ArtifactDigest(desc.digest.algorithm, bytes))
  }

  /** buildPolicy. The digest must decode, or nothing else happens. Then
      a subject holding '*' moves to the pattern and the caller's subject
      is cleared in place, before the identity is built; the library may
      still refuse the identity (identityAccepted). */
  method BuildPolicy(desc: Descriptor, opts: VerificationOptions, identityAccepted: CertificateIdentity -> bool)
    returns (r: Result<Policy, Failure>)
    modifies opts`subject
    ensures DigestConstraint(desc).Err? ==> r == Err(DigestNotHex) && opts.subject == old(opts.subject)
    ensures DigestConstraint(desc).Ok? ==>
      var mode := SubjectMode(old(opts.subject));
      var id := CertificateIdentity(opts.oidcIssuer, "", mode.literal, mode.pattern);
      && opts.subject == mode.literal
      && r == if identityAccepted(id)
              then Ok(Policy(DigestConstraint(desc).value, id))
              else Err(IdentityRejected)
    ensures r.Ok? ==> r.value.identity.subject == "" || r.value.identity.subjectRegexp == ""
  {
    var digest := Hex.Decode(desc.digest.hex);
    if digest.None? {
      return Err(DigestNotHex);
    }
    var artifact := ArtifactDigest(desc.digest.algorithm, digest.value);
    var subjectRegexp := "";
    if '*' in opts.subject {
      subjectRegexp := opts.subject;
      opts.subject := "";
    }
    var id := CertificateIdentity(opts.oidcIssuer, "", opts.subject, subjectRegexp);
    if !identityAccepted(id) {
      return Err(IdentityRejected);
    }
    r := Ok(Policy(artifact, id));
  }

  /** A descriptor whose digest is in the registry's lower-case hex form
      always yields the digest constraint on exactly those bytes, so
      building the policy never fails with DigestNotHex for it. */
  lemma RegistryDigestAccepted(algorithm: string, digest: seq<byte>)
    ensures DigestConstraint(Descriptor(Hash(algorithm, Hex.Encode(digest)))) == Ok(ArtifactDigest(algorithm, digest))
  {
    Hex.DecodeEncode(digest);
  }
}
