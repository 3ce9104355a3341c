/** Public byte strings that are hashed or bound into proofs: framed contexts,
    scopes, the issuer context and the two Fiat-Shamir statements. Each is an
    injective encoding of its fields, and different kinds never coincide. */
module Framing {
  import opened Bits
  import opened Nibbles
  import opened Fips202
  import opened Messages

  datatype Option<+T> = None | Some(value: T)

  /** Lengths on the supported platforms fit in 64 bits. */
  predicate Sized(bytes: seq<bv8>) {
    |bytes| < 0x1_0000_0000_0000_0000
  }

  function Length(bytes: seq<bv8>): (r: seq<bv8>)
    ensures |r| == 8
  {
    LeBytes(|bytes|, 8)
  }

  lemma Split<T>(a: seq<T>, b: seq<T>, c: seq<T>, d: seq<T>)
    requires |a| == |c| && a + b == c + d
    ensures a == c && b == d
  {
    assert a == (a + b)[..|a|] && b == (a + b)[|a|..];
    assert c == (c + d)[..|c|] && d == (c + d)[|c|..];
  }

  lemma LengthInjective(a: seq<bv8>, b: seq<bv8>)
    requires Sized(a) && Sized(b) && Length(a) == Length(b)
    ensures |a| == |b|
  {
    Pow2Of64();
    hide Pow2, LeBytes, OfLeBytes;
    LeBytesRoundTrip(|a|, 8);
    LeBytesRoundTrip(|b|, 8);
  }

  /** A length-prefixed component parses off the front. */
  lemma SplitFramed(a: seq<bv8>, x: seq<bv8>, b: seq<bv8>, y: seq<bv8>)
    requires Sized(a) && Sized(b) && Length(a) + (a + x) == Length(b) + (b + y)
    ensures a == b && x == y
  {
    hide Length;
    Split(Length(a), a + x, Length(b), b + y);
    LengthInjective(a, b);
    Split(a, x, b, y);
  }

  // ----- Framed context hashes

  function FramedComponents(components: seq<seq<bv8>>): (bytes: seq<bv8>) {
    if components == [] then []
    else Length(components[0]) + (components[0] + FramedComponents(components[1..]))
  }

  function FramedInput(domain: seq<bv8>, components: seq<seq<bv8>>): (bytes: seq<bv8>) {
    domain + FramedComponents(components)
  }

  /** `hash_framed`: the hasher is fed piece by piece. */
  method HashFramed(domain: seq<bv8>, components: seq<seq<bv8>>) returns (output: Digest)
    ensures output == Shake256(FramedInput(domain, components), 32)
  {
    hide Shake256, Length;
    var absorbed := domain;
    for i := 0 to |components|
      invariant absorbed + FramedComponents(components[i..]) == FramedInput(domain, components)
    {
      var component := components[i];
      assert components[i..][1..] == components[i + 1..];
      assert absorbed + FramedComponents(components[i..])
          == absorbed + Length(component) + component + FramedComponents(components[i + 1..]);
      absorbed := absorbed + Length(component);
      absorbed := absorbed + component;
    }
    assert absorbed + [] == absorbed;
    output := Shake256(absorbed, 32);
  }

  ghost predicate AllSized(components: seq<seq<bv8>>) {
    forall i :: 0 <= i < |components| ==> Sized(components[i])
  }

  /** The component list is determined, including how many components it has. */
  lemma {:induction false} FramedComponentsInjective(a: seq<seq<bv8>>, b: seq<seq<bv8>>)
    requires AllSized(a) && AllSized(b) && FramedComponents(a) == FramedComponents(b)
    ensures a == b
  {
    hide Length;
    if a != [] && b != [] {
      SplitFramed(a[0], FramedComponents(a[1..]), b[0], FramedComponents(b[1..]));
      FramedComponentsInjective(a[1..], b[1..]);
      assert a == [a[0]] + a[1..] && b == [b[0]] + b[1..];
    }
  }

  datatype Kind = CredentialData | PresentationData | ScopedData | BindingData

  function Domain(kind: Kind): (bytes: seq<bv8>) {
    match kind
    case CredentialData => Ascii("VOLE-ARC/credential-context/v1")
    case PresentationData => Ascii("VOLE-ARC/presentation-context/v1")
    case ScopedData => Ascii("VOLE-ARC/scoped-presentation/v1")
    case BindingData => Ascii("VOLE-ARC/presentation-binding/v1")
  }

  /** Two domains of the same length, or of different ones, differ early enough
      that no framed input of one kind extends the domain of another. */
  lemma DomainsDiffer(a: Kind, x: seq<bv8>, b: Kind, y: seq<bv8>)
    requires Domain(a) + x == Domain(b) + y
    ensures a == b
  {
    hide Domain;
    DomainLetters(a);
    DomainLetters(b);
    var left, right := Domain(a) + x, Domain(b) + y;
    assert left[9] == Domain(a)[9] && right[9] == Domain(b)[9];
    assert left[22] == Domain(a)[22] && right[22] == Domain(b)[22];
  }

  /** The letters at positions 9 and 22 tell the kinds apart. */
  lemma DomainLetters(kind: Kind)
    ensures |Domain(kind)| >= 30
    ensures Domain(kind)[9] == match kind case CredentialData => 99 case ScopedData => 115 case _ => 112
    ensures kind == PresentationData ==> Domain(kind)[22] == 99
    ensures kind == BindingData ==> Domain(kind)[22] == 98
  {
    DomainLetterBytes();
    hide CharByte;
    match kind
    case CredentialData => assert Domain(kind)[9] == CharByte('c');
    case PresentationData => assert Domain(kind)[9] == CharByte('p') && Domain(kind)[22] == CharByte('c');
    case ScopedData => assert Domain(kind)[9] == CharByte('s');
    case BindingData => assert Domain(kind)[9] == CharByte('p') && Domain(kind)[22] == CharByte('b');
  }

  lemma FramedInputInjective(a: Kind, x: seq<seq<bv8>>, b: Kind, y: seq<seq<bv8>>)
    requires AllSized(x) && AllSized(y) && FramedInput(Domain(a), x) == FramedInput(Domain(b), y)
    ensures a == b && x == y
  {
    hide Domain;
    DomainsDiffer(a, FramedComponents(x), b, FramedComponents(y));
    Split(Domain(a), FramedComponents(x), Domain(b), FramedComponents(y));
    FramedComponentsInjective(x, y);
  }

  /** The components of a bucket scoped by relying party, purpose and epoch. */
  function ScopedComponents(relyingParty: seq<bv8>, purpose: seq<bv8>, epoch: Option<seq<bv8>>): (all: seq<seq<bv8>>) {
    match epoch
    case Some(e) => [relyingParty, purpose, [1], e]
    case None => [relyingParty, purpose, [0], []]
  }

  function ScopedContext(relyingParty: seq<bv8>, purpose: seq<bv8>, epoch: Option<seq<bv8>>): (digest: Digest) {
    Shake256(FramedInput(Domain(ScopedData), ScopedComponents(relyingParty, purpose, epoch)), 32)
  }

  ghost predicate Collision(a: seq<bv8>, b: seq<bv8>) {
    a != b && Shake256(a, 32) == Shake256(b, 32)
  }

  /** Two scoped buckets share a digest only for the same relying party, purpose
      and epoch (an absent epoch is not an empty one), or by a hash collision. */
  lemma ScopedContextSeparates(rp: seq<bv8>, purpose: seq<bv8>, epoch: Option<seq<bv8>>,
                               rp': seq<bv8>, purpose': seq<bv8>, epoch': Option<seq<bv8>>)
    requires Sized(rp) && Sized(purpose) && (epoch.Some? ==> Sized(epoch.value))
    requires Sized(rp') && Sized(purpose') && (epoch'.Some? ==> Sized(epoch'.value))
    requires ScopedContext(rp, purpose, epoch) == ScopedContext(rp', purpose', epoch')
    ensures (rp == rp' && purpose == purpose' && epoch == epoch')
         || Collision(FramedInput(Domain(ScopedData), ScopedComponents(rp, purpose, epoch)),
                      FramedInput(Domain(ScopedData), ScopedComponents(rp', purpose', epoch')))
  {
    hide Shake256, FramedInput, Domain;
    var x, y := ScopedComponents(rp, purpose, epoch), ScopedComponents(rp', purpose', epoch');
    if FramedInput(Domain(ScopedData), x) == FramedInput(Domain(ScopedData), y) {
      FramedInputInjective(ScopedData, x, ScopedData, y);
      assert x[0] == y[0] && x[1] == y[1] && x[2] == y[2] && x[3] == y[3];
    }
  }

  // ----- Scopes

  function CredentialScopeInput(issuer: Digest, credential: Digest): (bytes: seq<bv8>) {
    Ascii("VOLE-ARC/credential-scope/v1") + issuer + credential
  }

  function PresentationScopeInput(issuer: Digest, credential: Digest, presentation: Digest): (bytes: seq<bv8>) {
    Ascii("VOLE-ARC/presentation-scope/v1") + issuer + credential + presentation
  }

  function CredentialScope(issuer: Digest, credential: Digest): (digest: Digest) {
    Shake256(CredentialScopeInput(issuer, credential), 32)
  }

  function PresentationScope(issuer: Digest, credential: Digest, presentation: Digest): (digest: Digest) {
    Shake256(PresentationScopeInput(issuer, credential, presentation), 32)
  }

  /** A presentation scope determines issuer, credential and presentation
      context, up to a hash collision; so does a credential scope. */
  lemma ScopesSeparate(i: Digest, c: Digest, p: Digest, i': Digest, c': Digest, p': Digest)
    ensures PresentationScope(i, c, p) == PresentationScope(i', c', p')
        ==> (i == i' && c == c' && p == p')
            || Collision(PresentationScopeInput(i, c, p), PresentationScopeInput(i', c', p'))
    ensures CredentialScope(i, c) == CredentialScope(i', c')
        ==> (i == i' && c == c') || Collision(CredentialScopeInput(i, c), CredentialScopeInput(i', c'))
  {
    hide Shake256, Ascii;
    var d, e := Ascii("VOLE-ARC/presentation-scope/v1"), Ascii("VOLE-ARC/credential-scope/v1");
    if PresentationScopeInput(i, c, p) == PresentationScopeInput(i', c', p') {
      Split(d + i + c, p, d + i' + c', p');
      Split(d + i, c, d + i', c');
      Split(d, i, d, i');
    }
    if CredentialScopeInput(i, c) == CredentialScopeInput(i', c') {
      Split(e + i, c, e + i', c');
      Split(e, i, e, i');
    }
  }

  // ----- The issuer context

  /** The suite name carries no length prefix. */
  function IssuerContextInput(application: seq<bv8>, keyHash: Digest, name: seq<bv8>, tau: nat,
                              k: nat): (bytes: seq<bv8>)
  {
    Ascii("VOLE-ARC/issuer-context/v1") + (Length(application) + (application + (keyHash + (name
      + (LeBytes(32, 8) + (LeBytes(tau, 8) + LeBytes(k, 8)))))))
  }

  lemma IssuerContextInputInjective(a: seq<bv8>, h: Digest, name: seq<bv8>, tau: nat, k: nat,
                                    a': seq<bv8>, h': Digest, name': seq<bv8>, tau': nat, k': nat)
    requires Sized(a) && Sized(a')
    requires tau < Pow2(64) && k < Pow2(64) && tau' < Pow2(64) && k' < Pow2(64)
    requires IssuerContextInput(a, h, name, tau, k) == IssuerContextInput(a', h', name', tau', k')
    ensures a == a' && h == h' && name == name' && tau == tau' && k == k'
  {
    hide Ascii, Length, LeBytes, OfLeBytes, Pow2;
    var d := Ascii("VOLE-ARC/issuer-context/v1");
    var w, t, t', l, l' := LeBytes(32, 8), LeBytes(tau, 8), LeBytes(tau', 8), LeBytes(k, 8), LeBytes(k', 8);
    var r, r' := h + (name + (w + (t + l))), h' + (name' + (w + (t' + l')));
    Split(d, Length(a) + (a + r), d, Length(a') + (a' + r'));
    SplitFramed(a, r, a', r');
    Split(h, name + (w + (t + l)), h', name' + (w + (t' + l')));
    assert |name + (w + (t + l))| == |name' + (w + (t' + l'))|;
    Split(name, w + (t + l), name', w + (t' + l'));
    Split(w, t + l, w, t' + l');
    Split(t, l, t', l');
    LeBytesRoundTrip(tau, 8);
    LeBytesRoundTrip(tau', 8);
    LeBytesRoundTrip(k, 8);
    LeBytesRoundTrip(k', 8);
  }

  // ----- Fiat-Shamir statements

  function NibbleByte(v: bv4): (r: bv8) {
    v as bv8
  }

  function TargetBytes(target: seq<bv4>): (bytes: seq<bv8>)
    ensures |bytes| == |target|
  {
    seq(|target|, i requires 0 <= i < |target| => NibbleByte(target[i]))
  }

  function IssueStatement(name: seq<bv8>, issuer: Digest, credential: Digest, commitment: seq<bv4>): (bytes: seq<bv8>) {
    Ascii("VOLE-ARC/issue-statement/v1") + (Length(name) + (name + (issuer + (credential
      + (LeBytes(|commitment|, 8) + TargetBytes(commitment))))))
  }

  /** The public policy of one presentation. */
  datatype Challenge = Challenge(credentialContext: Digest, presentationContext: Digest, binding: Digest, limit: U32)

  function PresentationStatement(name: seq<bv8>, issuer: Digest, ch: Challenge, tag: Digest): (bytes: seq<bv8>) {
    Ascii("VOLE-ARC/presentation-statement/v1") + (Length(name) + (name + (issuer + (ch.credentialContext
      + (ch.presentationContext + (LeBytes(ch.limit, 4) + (ch.binding + tag)))))))
  }

  lemma TargetBytesInjective(a: seq<bv4>, b: seq<bv4>)
    requires TargetBytes(a) == TargetBytes(b)
    ensures a == b
  {
    assert |TargetBytes(a)| == |TargetBytes(b)|;
    forall i | 0 <= i < |a|
      ensures a[i] == b[i]
    {
      assert TargetBytes(a)[i] == TargetBytes(b)[i];
    }
  }

  lemma IssueStatementInjective(n: seq<bv8>, i: Digest, cc: Digest, c: seq<bv4>,
                                n': seq<bv8>, i': Digest, cc': Digest, c': seq<bv4>)
    requires Sized(n) && Sized(n') && IssueStatement(n, i, cc, c) == IssueStatement(n', i', cc', c')
    ensures n == n' && i == i' && cc == cc' && c == c'
  {
    hide Ascii, Length, LeBytes, TargetBytes;
    var d := Ascii("VOLE-ARC/issue-statement/v1");
    var m, m' := LeBytes(|c|, 8), LeBytes(|c'|, 8);
    var t, t' := TargetBytes(c), TargetBytes(c');
    Split(d, Length(n) + (n + (i + (cc + (m + t)))), d, Length(n') + (n' + (i' + (cc' + (m' + t')))));
    SplitFramed(n, i + (cc + (m + t)), n', i' + (cc' + (m' + t')));
    Split(i, cc + (m + t), i', cc' + (m' + t'));
    Split(cc, m + t, cc', m' + t');
    Split(m, t, m', t');
    TargetBytesInjective(c, c');
  }

  lemma PresentationStatementInjective(n: seq<bv8>, i: Digest, ch: Challenge, tag: Digest,
                                       n': seq<bv8>, i': Digest, ch': Challenge, tag': Digest)
    requires Sized(n) && Sized(n') && PresentationStatement(n, i, ch, tag) == PresentationStatement(n', i', ch', tag')
    ensures n == n' && i == i' && ch == ch' && tag == tag'
  {
    Pow2Of32();
    hide Ascii, Length, LeBytes, OfLeBytes, Pow2;
    var d := Ascii("VOLE-ARC/presentation-statement/v1");
    var l, l' := LeBytes(ch.limit, 4), LeBytes(ch'.limit, 4);
    var r := i + (ch.credentialContext + (ch.presentationContext + (l + (ch.binding + tag))));
    var r' := i' + (ch'.credentialContext + (ch'.presentationContext + (l' + (ch'.binding + tag'))));
    Split(d, Length(n) + (n + r), d, Length(n') + (n' + r'));
    SplitFramed(n, r, n', r');
    Split(i, ch.credentialContext + (ch.presentationContext + (l + (ch.binding + tag))),
          i', ch'.credentialContext + (ch'.presentationContext + (l' + (ch'.binding + tag'))));
    Split(ch.credentialContext, ch.presentationContext + (l + (ch.binding + tag)),
          ch'.credentialContext, ch'.presentationContext + (l' + (ch'.binding + tag')));
    Split(ch.presentationContext, l + (ch.binding + tag), ch'.presentationContext, l' + (ch'.binding + tag'));
    Split(l, ch.binding + tag, l', ch'.binding + tag');
    Split(ch.binding, tag, ch'.binding, tag');
    LeBytesRoundTrip(ch.limit, 4);
    LeBytesRoundTrip(ch'.limit, 4);
  }

  /** An issuance proof never speaks about a presentation statement. */
  lemma StatementsDisjoint(n: seq<bv8>, i: Digest, cc: Digest, c: seq<bv4>,
                           n': seq<bv8>, i': Digest, ch: Challenge, tag: Digest)
    ensures IssueStatement(n, i, cc, c) != PresentationStatement(n', i', ch, tag)
  {
    var a, b := Ascii("VOLE-ARC/issue-statement/v1"), Ascii("VOLE-ARC/presentation-statement/v1");
    assert a[9] != b[9] by { StatementLetters(); }
    hide Ascii, Length, LeBytes, TargetBytes;
    assert IssueStatement(n, i, cc, c)[9] == a[9];
    assert PresentationStatement(n', i', ch, tag)[9] == b[9];
  }

  lemma StatementLetters()
    ensures Ascii("VOLE-ARC/issue-statement/v1")[9] != Ascii("VOLE-ARC/presentation-statement/v1")[9]
  {
    DomainLetterBytes();
    hide CharByte;
    assert Ascii("VOLE-ARC/issue-statement/v1")[9] == CharByte('i');
    assert Ascii("VOLE-ARC/presentation-statement/v1")[9] == CharByte('p');
  }

  // ----- The hashed messages

  lemma CredentialMessageInjective(cs: Digest, k: Digest, rho: Digest, cs': Digest, k': Digest, rho': Digest)
    requires CredentialMessage(cs, k, rho) == CredentialMessage(cs', k', rho')
    ensures cs == cs' && k == k' && rho == rho'
  {
    hide CredentialDomain;
    var d := CredentialDomain();
    Split(d + cs + k, rho, d + cs' + k', rho');
    Split(d + cs, k, d + cs', k');
    Split(d, cs, d, cs');
  }

  lemma SignedCredentialMessageInjective(c: seq<bv4>, zeta: Digest, c': seq<bv4>, zeta': Digest)
    requires |c| == |c'| && SignedCredentialMessage(c, zeta) == SignedCredentialMessage(c', zeta')
    ensures c == c' && zeta == zeta'
  {
    hide SignedCredentialDomain, Pack, Unpack;
    var d := SignedCredentialDomain();
    Split(d + Pack(c), zeta, d + Pack(c'), zeta');
    Split(d, Pack(c), d, Pack(c'));
    UnpackPack(c);
    UnpackPack(c');
  }

  lemma TagMessageInjective(k: Digest, s: Digest, i: U32, k': Digest, s': Digest, i': U32)
    requires TagMessage(k, s, i) == TagMessage(k', s', i')
    ensures k == k' && s == s' && i == i'
  {
    Pow2Of32();
    hide TagDomain, LeBytes, OfLeBytes, Pow2;
    var d := TagDomain();
    Split(d + k + s, LeBytes(i, 4), d + k' + s', LeBytes(i', 4));
    Split(d + k, s, d + k', s');
    Split(d, k, d, k');
    LeBytesRoundTrip(i, 4);
    LeBytesRoundTrip(i', 4);
  }

  /** Equal tags mean the same secret, scope and nonce, or a hash collision. */
  lemma TagsSeparate(k: Digest, s: Digest, i: U32, k': Digest, s': Digest, i': U32)
    requires DeriveTag(k, s, i) == DeriveTag(k', s', i')
    ensures (k == k' && s == s' && i == i') || Collision(TagMessage(k, s, i), TagMessage(k', s', i'))
  {
    hide Shake256, TagMessage;
    if TagMessage(k, s, i) == TagMessage(k', s', i') {
      TagMessageInjective(k, s, i, k', s', i');
    }
  }

  /** Two messages with the same first m nibbles of their hashes. */
  ghost predicate NibbleCollision(a: seq<bv8>, b: seq<bv8>, m: nat) {
    a != b && HashNibbles(a, m) == HashNibbles(b, m)
  }

  /** Equal commitments open equally and equal signed targets wrap the same
      commitment and salt, or there is a collision of the hash. */
  lemma TargetsSeparate(m: nat, cs: Digest, k: Digest, rho: Digest, cs': Digest, k': Digest, rho': Digest,
                        c: seq<bv4>, zeta: Digest, c': seq<bv4>, zeta': Digest)
    requires |c| == |c'|
    ensures CredentialTarget(m, cs, k, rho) == CredentialTarget(m, cs', k', rho')
        ==> (cs == cs' && k == k' && rho == rho')
            || NibbleCollision(CredentialMessage(cs, k, rho), CredentialMessage(cs', k', rho'), m)
    ensures SignedCredentialTarget(m, c, zeta) == SignedCredentialTarget(m, c', zeta')
        ==> (c == c' && zeta == zeta')
            || NibbleCollision(SignedCredentialMessage(c, zeta), SignedCredentialMessage(c', zeta'), m)
  {
    hide HashNibbles, CredentialMessage, SignedCredentialMessage;
    if CredentialMessage(cs, k, rho) == CredentialMessage(cs', k', rho') {
      CredentialMessageInjective(cs, k, rho, cs', k', rho');
    }
    if SignedCredentialMessage(c, zeta) == SignedCredentialMessage(c', zeta') {
      SignedCredentialMessageInjective(c, zeta, c', zeta');
    }
  }

  /** The three messages hashed inside the circuits never coincide. */
  lemma HashedMessagesDisjoint(cs: Digest, k: Digest, rho: Digest, c: seq<bv4>, zeta: Digest, k': Digest, ps: Digest,
                               i: U32)
    ensures CredentialMessage(cs, k, rho) != SignedCredentialMessage(c, zeta)
    ensures CredentialMessage(cs, k, rho) != TagMessage(k', ps, i)
    ensures SignedCredentialMessage(c, zeta) != TagMessage(k', ps, i)
  {
    DomainLetterBytes();
    hide LeBytes, CharByte;
    assert CredentialDomain()[9] == CharByte('c');
    assert SignedCredentialDomain()[9] == CharByte('s');
    assert TagDomain()[9] == CharByte('t');
    hide CredentialDomain, SignedCredentialDomain, TagDomain;
    assert CredentialMessage(cs, k, rho)[9] == CredentialDomain()[9];
    assert SignedCredentialMessage(c, zeta)[9] == SignedCredentialDomain()[9];
    assert TagMessage(k', ps, i)[9] == TagDomain()[9];
  }
}
