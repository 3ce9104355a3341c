/** What honest clients obtain: the run in which every holder is issued a
    credential and presents it as often as the limit allows accepts exactly the
    distinct tags. So the bound of the accounting theorem is attained for every
    number of lineages and every limit, and its hypotheses can be met. */
module Attainment {
  import opened Constraints
  import opened Messages
  import opened Circuits
  import opened Framing
  import opened Protocol
  import opened Credentials
  import opened Issuance
  import opened Accounting
  import opened Bits

  /** One client: what it samples for its credential, and what the issuer
      samples when it answers. */
  datatype Holder = Holder(secret: Digest, hidingNonce: Digest, salt: Digest, coins: nat)

  // ----- Enrolment

  function Target<F>(pk: PublicKey<F>, cc: Digest, h: Holder): (target: seq<bv4>) {
    SignedCredentialTarget(pk.suite.m, Commitment(pk, cc, h.secret, h.hidingNonce), h.salt)
  }

  /** A lawful deployment. */
  ghost predicate Working<F(!new), P(!new)>(w: World<F, P>) {
    && w.pk.suite.Fits() && Lawful(w.pk.system)
    && Complete(w.ps, w.pk.system) && Willing(w.ps, w.pk.system) && SamplesPreimages(w.sample, w.pk)
  }

  /** The sampler finds a preimage for every holder. */
  ghost predicate Signs<F, P>(w: World<F, P>, cc: Digest, hs: seq<Holder>) {
    forall i :: 0 <= i < |hs| ==> w.sample(Target(w.pk, cc, hs[i]), hs[i].coins).Some?
  }

  function RequestOf<F, P>(w: World<F, P>, cc: Digest, h: Holder): (request: IssueRequest<P>)
    requires w.pk.suite.Fits() && PrepareIssue(w.ps, w.pk, cc, h.secret, h.hidingNonce, h.coins).Ok?
  {
    PrepareIssue(w.ps, w.pk, cc, h.secret, h.hidingNonce, h.coins).value.1
  }

  function CredentialOf<F, P>(w: World<F, P>, cc: Digest, h: Holder): (c: CredentialState)
    requires w.sample(Target(w.pk, cc, h), h.coins).Some?
  {
    CredentialState(w.pk.context, cc, w.sample(Target(w.pk, cc, h), h.coins).value, h.secret, h.hidingNonce, h.salt,
      map[])
  }

  /** Issuance gives a holder this credential, and it is authentic. */
  lemma Enrolled<F(!new), P(!new)>(w: World<F, P>, cc: Digest, h: Holder)
    requires Working(w) && w.sample(Target(w.pk, cc, h), h.coins).Some?
    ensures PrepareIssue(w.ps, w.pk, cc, h.secret, h.hidingNonce, h.coins).Ok?
    ensures var request := RequestOf(w, cc, h);
            var pending := PrepareIssue(w.ps, w.pk, cc, h.secret, h.hidingNonce, h.coins).value.0;
            var response := Issue(w.ps, w.pk, w.sample, cc, request, h.salt, h.coins);
            && request.commitment == Commitment(w.pk, cc, h.secret, h.hidingNonce)
            && response.Ok?
            && Finish(pending, w.pk, request, response.value) == Ok(CredentialOf(w, cc, h))
    ensures Authentic(w.pk, CredentialOf(w, cc, h))
  {
    hide CredentialTarget, SignedCredentialTarget, IssueAssertions, IssueWitness, IssueStatement, AllHold,
      CredentialScope, LawfulField;
    PrepareSucceeds(w.ps, w.pk, cc, h.secret, h.hidingNonce, h.coins);
    HonestIssuance(w.ps, w.pk, w.sample, cc, h.secret, h.hidingNonce, h.coins, h.salt, h.coins);
  }

  // ----- Presenting up to the limit

  function Calls<F>(pk: PublicKey<F>, ch: Challenge, count: nat): (calls: seq<Call<F>>) {
    seq(count, i => Call(pk, ch, 0))
  }

  /** What the call after `i` earlier ones returns. */
  function EmitAt<F, P>(w: World<F, P>, c: CredentialState, ch: Challenge, i: nat): (r: Outcome<Presentation<P>>) {
    PresentResult(RunState(c, w.ps, Calls(w.pk, ch, i)), w.ps, w.pk, ch, 0)
  }

  /** Call i succeeds, carries the tag of nonce i, and would be accepted. */
  lemma PresentsInOrder<F(!new), P(!new)>(w: World<F, P>, c: CredentialState, ch: Challenge, i: nat)
    requires Working(w) && Authentic(w.pk, c) && c.nextNonces == map[] && c.credentialContext == ch.credentialContext
    requires i < ch.limit
    ensures NextNonce(RunState(c, w.ps, Calls(w.pk, ch, i)).nextNonces, ch.presentationContext) == i
    ensures EmitAt(w, c, ch, i).Ok?
    ensures EmitAt(w, c, ch, i).value.tag == DeriveTag(c.secret, ScopeOf(w.pk, ch), i)
    ensures VerifyProofOnly(w.ps, w.pk, ch, EmitAt(w, c, ch, i).value).Ok?
  {
    hide SignedCredentialTarget, CredentialTarget, CredentialScope, PresentationScope, ProvePresentation, Lawful,
      Complete, Willing, RunState, DeriveTag, Accepts;
    var calls := Calls(w.pk, ch, i);
    var before := RunState(c, w.ps, calls);
    var context := ch.presentationContext;
    FreshAllowance(c, w.ps, w.pk, calls, context, ch.limit);
    FreshRun(c, w.ps, calls, context);
    AuthenticNeverFails(c, w.ps, w.pk, calls);
    AllowanceExact(c, w.ps, calls, context, ch.limit);
    RunInvariant(c, w.ps, calls, context);
    AuthenticDependsOnIdentity(w.pk, before, c);
    assert before.credentialContext == ch.credentialContext by { IdentityFields(before, c); }
    assert before.secret == c.secret by { IdentityFields(before, c); }
    PresentSucceedsExactly(before, w.ps, w.pk, ch, 0);
    PresentEffect(before, w.ps, w.pk, ch, 0);
    PresentedIsAccepted(before, w.ps, w.pk, ch, 0);
  }

  lemma IdentityFields(a: CredentialState, b: CredentialState)
    requires SameIdentity(a, b)
    ensures a.credentialContext == b.credentialContext && a.secret == b.secret
  {
    assert a.credentialContext == b.(nextNonces := map[]).credentialContext;
    assert a.secret == b.(nextNonces := map[]).secret;
  }

  /** What `count` calls on a credential emit, in order. */
  function Entries<F, P>(w: World<F, P>, c: CredentialState, ch: Challenge, count: nat): (es: seq<Entry<P>>)
    decreases count
  {
    if count == 0 then []
    else
      var before := Entries(w, c, ch, count - 1);
      match EmitAt(w, c, ch, count - 1)
      case Ok(p) => before + [Entry(ch, p)]
      case Err(_) => before
  }

  /** The tags of the first `count` nonces. */
  function NonceTags(secret: Digest, scope: Digest, count: nat): (tags: seq<Digest>)
    requires count <= 0xffff_ffff
    ensures |tags| == count
  {
    seq(count, i requires 0 <= i < count => DeriveTag(secret, scope, i))
  }

  /** An entry that this client's calls emit under its limit. */
  ghost predicate EmittedBy<F, P>(w: World<F, P>, c: CredentialState, ch: Challenge, e: Entry<P>) {
    exists i: nat :: i < ch.limit && EmitAt(w, c, ch, i) == Ok(e.presentation) && e.challenge == ch
  }

  ghost predicate Emitted<F, P>(w: World<F, P>, c: CredentialState, ch: Challenge, es: seq<Entry<P>>,
                                tags: seq<Digest>)
  {
    && |es| == |tags|
    && forall k :: 0 <= k < |es| ==> es[k].presentation.tag == tags[k] && EmittedBy(w, c, ch, es[k])
  }

  lemma {:induction false} EntriesInOrder<F(!new), P(!new)>(w: World<F, P>, c: CredentialState, ch: Challenge,
                                                            count: nat)
    requires Working(w) && Authentic(w.pk, c) && c.nextNonces == map[] && c.credentialContext == ch.credentialContext
    requires count <= ch.limit
    ensures Emitted(w, c, ch, Entries(w, c, ch, count), NonceTags(c.secret, ScopeOf(w.pk, ch), count))
    decreases count
  {
    hide Working, Authentic, EmitAt, DeriveTag, ScopeOf, Emitted, EmittedBy, NonceTags, VerifyProofOnly;
    if count == 0 {
      NothingEmitted(w, c, ch);
    } else {
      EntriesInOrder(w, c, ch, count - 1);
      PresentsInOrder(w, c, ch, count - 1);
      var e := Entry(ch, EmitAt(w, c, ch, count - 1).value);
      LastEmitted(w, c, ch, e, count - 1);
      NonceTagsStep(c.secret, ScopeOf(w.pk, ch), count);
      OneMoreEmitted(w, c, ch, Entries(w, c, ch, count - 1), NonceTags(c.secret, ScopeOf(w.pk, ch), count - 1), e);
    }
  }

  lemma NothingEmitted<F, P>(w: World<F, P>, c: CredentialState, ch: Challenge)
    ensures Emitted(w, c, ch, Entries(w, c, ch, 0), NonceTags(c.secret, ScopeOf(w.pk, ch), 0))
  {
    hide ScopeOf;
  }

  lemma LastEmitted<F, P>(w: World<F, P>, c: CredentialState, ch: Challenge, e: Entry<P>, i: nat)
    requires i < ch.limit && EmitAt(w, c, ch, i) == Ok(e.presentation) && e.challenge == ch
    ensures EmittedBy(w, c, ch, e)
  {
    hide EmitAt;
  }

  lemma NonceTagsStep(secret: Digest, scope: Digest, count: nat)
    requires 0 < count <= 0xffff_ffff
    ensures NonceTags(secret, scope, count)
        == NonceTags(secret, scope, count - 1) + [DeriveTag(secret, scope, count - 1)]
  {
    hide DeriveTag;
  }

  lemma OneMoreEmitted<F, P>(w: World<F, P>, c: CredentialState, ch: Challenge, es: seq<Entry<P>>, tags: seq<Digest>,
                             e: Entry<P>)
    requires Emitted(w, c, ch, es, tags) && EmittedBy(w, c, ch, e)
    ensures Emitted(w, c, ch, es + [e], tags + [e.presentation.tag])
  {
    hide EmittedBy;
  }

  // ----- All holders

  ghost function AllEntries<F, P>(w: World<F, P>, ch: Challenge, hs: seq<Holder>): (es: seq<Entry<P>>)
    requires Signs(w, ch.credentialContext, hs)
    decreases |hs|
  {
    if hs == [] then []
    else
      var n := |hs| - 1;
      AllEntries(w, ch, hs[..n]) + Entries(w, CredentialOf(w, ch.credentialContext, hs[n]), ch, ch.limit)
  }

  /** The tags of all holders under one limit. */
  function AllTags(scope: Digest, limit: U32, hs: seq<Holder>): (tags: seq<Digest>)
    decreases |hs|
  {
    if hs == [] then []
    else AllTags(scope, limit, hs[..|hs| - 1]) + NonceTags(hs[|hs| - 1].secret, scope, limit)
  }

  lemma {:induction false} AllTagsCount(scope: Digest, limit: U32, hs: seq<Holder>)
    ensures |AllTags(scope, limit, hs)| == |hs| * limit
    decreases |hs|
  {
    if hs != [] {
      AllTagsCount(scope, limit, hs[..|hs| - 1]);
      assert (|hs| - 1) * limit + limit == |hs| * limit;
    }
  }

  ghost predicate FromSome<F, P>(w: World<F, P>, ch: Challenge, hs: seq<Holder>, e: Entry<P>)
    requires Signs(w, ch.credentialContext, hs)
  {
    exists j :: 0 <= j < |hs| && EmittedBy(w, CredentialOf(w, ch.credentialContext, hs[j]), ch, e)
  }

  ghost predicate AllEmitted<F, P>(w: World<F, P>, ch: Challenge, hs: seq<Holder>, es: seq<Entry<P>>, tags: seq<Digest>)
    requires Signs(w, ch.credentialContext, hs)
  {
    && |es| == |tags|
    && forall k :: 0 <= k < |es| ==> es[k].presentation.tag == tags[k] && FromSome(w, ch, hs, es[k])
  }

  lemma {:induction false} AllEntriesInOrder<F(!new), P(!new)>(w: World<F, P>, ch: Challenge, hs: seq<Holder>)
    requires Working(w) && Signs(w, ch.credentialContext, hs)
    ensures AllEmitted(w, ch, hs, AllEntries(w, ch, hs), AllTags(ScopeOf(w.pk, ch), ch.limit, hs))
    decreases |hs|
  {
    hide Working, Authentic, DeriveTag, ScopeOf, Emitted, EmittedBy, NonceTags, Target, Entries, FromSome;
    if hs == [] {
    } else {
      hide AllEmitted;
      var n := |hs| - 1;
      var c := CredentialOf(w, ch.credentialContext, hs[n]);
      AllEntriesInOrder(w, ch, hs[..n]);
      Enrolled(w, ch.credentialContext, hs[n]);
      EntriesInOrder(w, c, ch, ch.limit);
      OneMoreHolder(w, ch, hs, AllEntries(w, ch, hs[..n]), AllTags(ScopeOf(w.pk, ch), ch.limit, hs[..n]),
        Entries(w, c, ch, ch.limit), NonceTags(c.secret, ScopeOf(w.pk, ch), ch.limit));
    }
  }

  lemma OneMoreHolder<F, P>(w: World<F, P>, ch: Challenge, hs: seq<Holder>, es: seq<Entry<P>>, tags: seq<Digest>,
                            more: seq<Entry<P>>, moreTags: seq<Digest>)
    requires hs != [] && Signs(w, ch.credentialContext, hs)
    requires AllEmitted(w, ch, hs[..|hs| - 1], es, tags)
    requires Emitted(w, CredentialOf(w, ch.credentialContext, hs[|hs| - 1]), ch, more, moreTags)
    ensures AllEmitted(w, ch, hs, es + more, tags + moreTags)
  {
    hide EmittedBy, Target, CredentialOf;
    var n := |hs| - 1;
    forall k | 0 <= k < |es|
      ensures FromSome(w, ch, hs, es[k])
    {
      var j :| 0 <= j < n && EmittedBy(w, CredentialOf(w, ch.credentialContext, hs[..n][j]), ch, es[k]);
      assert hs[..n][j] == hs[j];
    }
    forall k | 0 <= k < |more|
      ensures FromSome(w, ch, hs, more[k])
    {
      assert EmittedBy(w, CredentialOf(w, ch.credentialContext, hs[n]), ch, more[k]);
    }
  }

  // ----- The run

  /** Each holder prepares a request, and the issuer answers it. */
  function SignEvents<F, P>(w: World<F, P>, cc: Digest, hs: seq<Holder>): (events: seq<Event<P>>)
    requires w.pk.suite.Fits()
    decreases |hs|
  {
    if hs == [] then []
    else
      var h := hs[|hs| - 1];
      var before := SignEvents(w, cc, hs[..|hs| - 1]);
      match PrepareIssue(w.ps, w.pk, cc, h.secret, h.hidingNonce, h.coins)
      case Ok(prepared) => before + [Sign(cc, prepared.1, h.salt, h.coins)]
      case Err(_) => before
  }

  function SubmitEvents<P>(es: seq<Entry<P>>): (events: seq<Event<P>>)
    decreases |es|
  {
    if es == [] then [] else SubmitEvents(es[..|es| - 1]) + [Check(0, es[|es| - 1]), Insert(0)]
  }

  /** Everybody enrols, then everybody presents up to the limit. */
  ghost function HonestRun<F, P>(w: World<F, P>, ch: Challenge, hs: seq<Holder>): (events: seq<Event<P>>)
    requires w.pk.suite.Fits() && Signs(w, ch.credentialContext, hs)
  {
    SignEvents(w, ch.credentialContext, hs) + SubmitEvents(AllEntries(w, ch, hs))
  }

  lemma RunSnoc<F, P>(w: World<F, P>, events: seq<Event<P>>, event: Event<P>)
    requires w.pk.suite.Fits()
    ensures Run(w, events + [event]) == Step(w, Run(w, events), event)
  {
    hide Step;
    assert (events + [event])[..|events|] == events;
  }

  ghost predicate AllAnswered<F, P>(w: World<F, P>, cc: Digest, hs: seq<Holder>, issued: seq<Issued<P>>)
    requires w.pk.suite.Fits()
  {
    && |issued| == |hs|
    && forall i :: 0 <= i < |hs| ==>
         && PrepareIssue(w.ps, w.pk, cc, hs[i].secret, hs[i].hidingNonce, hs[i].coins).Ok?
         && issued[i] == Issued(cc, RequestOf(w, cc, hs[i]))
  }

  lemma LastSigned<F(!new), P(!new)>(w: World<F, P>, cc: Digest, hs: seq<Holder>, s: State<P>)
    requires Working(w) && hs != [] && Signs(w, cc, hs)
    ensures var h := hs[|hs| - 1];
            && PrepareIssue(w.ps, w.pk, cc, h.secret, h.hidingNonce, h.coins).Ok?
            && var sign := Event.Sign(cc, RequestOf(w, cc, h), h.salt, h.coins);
            && SignEvents(w, cc, hs) == SignEvents(w, cc, hs[..|hs| - 1]) + [sign]
            && Step(w, s, sign) == s.(issued := s.issued + [Issued(cc, RequestOf(w, cc, h))])
  {
    hide PrepareIssue, Issue, Lawful, Target, SamplesPreimages, Complete, Willing, Authentic;
    Enrolled(w, cc, hs[|hs| - 1]);
  }

  lemma {:induction false} AllSigned<F(!new), P(!new)>(w: World<F, P>, cc: Digest, hs: seq<Holder>)
    requires Working(w) && Signs(w, cc, hs)
    ensures var s := Run(w, SignEvents(w, cc, hs));
            s.store == {} && s.accepted == [] && s.pending == map[] && AllAnswered(w, cc, hs, s.issued)
    decreases |hs|
  {
    hide PrepareIssue, Lawful, Target, SamplesPreimages, Complete, Willing, RequestOf, Step;
    if hs == [] {
    } else {
      hide Run, AllAnswered, SignEvents;
      var n := |hs| - 1;
      var before := SignEvents(w, cc, hs[..n]);
      AllSigned(w, cc, hs[..n]);
      LastSigned(w, cc, hs, Run(w, before));
      RunSnoc(w, before, Sign(cc, RequestOf(w, cc, hs[n]), hs[n].salt, hs[n].coins));
      OneMoreAnswer(w, cc, hs, Run(w, before).issued);
    }
  }

  lemma OneMoreAnswer<F, P>(w: World<F, P>, cc: Digest, hs: seq<Holder>, issued: seq<Issued<P>>)
    requires w.pk.suite.Fits() && hs != [] && AllAnswered(w, cc, hs[..|hs| - 1], issued)
    requires PrepareIssue(w.ps, w.pk, cc, hs[|hs| - 1].secret, hs[|hs| - 1].hidingNonce, hs[|hs| - 1].coins).Ok?
    ensures AllAnswered(w, cc, hs, issued + [Issued(cc, RequestOf(w, cc, hs[|hs| - 1]))])
  {
    hide PrepareIssue, RequestOf;
    forall i | 0 <= i < |hs| - 1
      ensures hs[..|hs| - 1][i] == hs[i]
    {
    }
  }

  ghost function Keys<F, P>(w: World<F, P>, es: seq<Entry<P>>): (keys: Store) {
    set k | 0 <= k < |es| :: Key(w, es[k])
  }

  ghost predicate AllVerify<F, P>(w: World<F, P>, es: seq<Entry<P>>) {
    forall k :: 0 <= k < |es| ==> VerifyProofOnly(w.ps, w.pk, es[k].challenge, es[k].presentation).Ok?
  }

  lemma Submitted<F, P>(w: World<F, P>, s: State<P>, e: Entry<P>)
    requires w.pk.suite.Fits() && s.pending == map[] && VerifyProofOnly(w.ps, w.pk, e.challenge, e.presentation).Ok?
    ensures var t := Step(w, Step(w, s, Check(0, e)), Insert(0));
            && t.issued == s.issued && t.pending == map[]
            && t.store == s.store + {Key(w, e)}
            && t.accepted == s.accepted + (if Key(w, e) in s.store then [] else [e])
            && |t.accepted| + |s.store| == |s.accepted| + |t.store|
  {
    hide VerifyProofOnly, Key;
    var checked := Step(w, s, Check(0, e));
    assert checked.pending == map[0 := e];
    assert map[0 := e] - {0} == map[];
    OneMore(s.store, Key(w, e));
    if Key(w, e) in s.store {
      assert s.store + {Key(w, e)} == s.store;
    }
  }

  lemma KeysGrow<F, P>(w: World<F, P>, es: seq<Entry<P>>)
    requires es != []
    ensures Keys(w, es) == Keys(w, es[..|es| - 1]) + {Key(w, es[|es| - 1])}
  {
    hide Key;
    var n := |es| - 1;
    forall key
      ensures key in Keys(w, es) <==> key in Keys(w, es[..n]) || key == Key(w, es[n])
    {
      if key in Keys(w, es[..n]) {
        var k :| 0 <= k < n && key == Key(w, es[..n][k]);
        assert es[k] == es[..n][k];
      }
      if key in Keys(w, es) {
        var k :| 0 <= k < |es| && key == Key(w, es[k]);
        if k < n {
          assert es[..n][k] == es[k];
        }
      }
    }
  }

  /** What submitting entries one after the other does to a state: it stores
      exactly their keys and accepts one of them per new key. */
  ghost predicate SubmitOutcome<F, P>(w: World<F, P>, s: State<P>, t: State<P>, es: seq<Entry<P>>) {
    && t.issued == s.issued && t.pending == map[]
    && t.store == s.store + Keys(w, es)
    && |t.accepted| + |s.store| == |s.accepted| + |t.store|
    && forall i :: 0 <= i < |t.accepted| ==> t.accepted[i] in s.accepted || t.accepted[i] in es
  }

  lemma {:induction false} AllSubmitted<F, P>(w: World<F, P>, events: seq<Event<P>>, es: seq<Entry<P>>)
    requires w.pk.suite.Fits() && Run(w, events).pending == map[] && AllVerify(w, es)
    ensures SubmitOutcome(w, Run(w, events), Run(w, events + SubmitEvents(es)), es)
    decreases |es|
  {
    hide Run, VerifyProofOnly, Key, Step;
    if es == [] {
      assert events + SubmitEvents(es) == events;
    } else {
      hide SubmitOutcome, Keys;
      var n := |es| - 1;
      var before := events + SubmitEvents(es[..n]);
      AllSubmitted(w, events, es[..n]);
      LastSubmitted(w, events, es);
      OneMoreSubmitted(w, Run(w, events), Run(w, before), es);
    }
  }

  lemma LastSubmitted<F, P>(w: World<F, P>, events: seq<Event<P>>, es: seq<Entry<P>>)
    requires w.pk.suite.Fits() && es != []
    ensures var before := Run(w, events + SubmitEvents(es[..|es| - 1]));
            Run(w, events + SubmitEvents(es)) == Step(w, Step(w, before, Check(0, es[|es| - 1])), Insert(0))
  {
    hide Run, Step;
    var e := es[|es| - 1];
    var before := events + SubmitEvents(es[..|es| - 1]);
    assert events + SubmitEvents(es) == (before + [Check(0, e)]) + [Insert(0)];
    RunSnoc(w, before, Check(0, e));
    RunSnoc(w, before + [Check(0, e)], Insert(0));
  }

  lemma OneMoreSubmitted<F, P>(w: World<F, P>, s: State<P>, before: State<P>, es: seq<Entry<P>>)
    requires w.pk.suite.Fits() && es != [] && AllVerify(w, es) && SubmitOutcome(w, s, before, es[..|es| - 1])
    ensures SubmitOutcome(w, s, Step(w, Step(w, before, Check(0, es[|es| - 1])), Insert(0)), es)
  {
    hide VerifyProofOnly, Key, Step, Keys;
    var n := |es| - 1;
    Submitted(w, before, es[n]);
    KeysGrow(w, es);
    forall e | e in es[..n]
      ensures e in es
    {
    }
  }

  // ----- The yield

  function TagSet(tags: seq<Digest>): (distinct: set<Digest>) {
    set t | t in tags
  }

  lemma {:induction false} PairsOf(scope: Digest, tags: set<Digest>)
    ensures |set t | t in tags :: (scope, t)| == |tags|
    decreases |tags|
  {
    var pairs := set t | t in tags :: (scope, t);
    if tags == {} {
      assert pairs == {};
    } else {
      var t :| t in tags;
      PairsOf(scope, tags - {t});
      assert pairs == (set u | u in tags - {t} :: (scope, u)) + {(scope, t)};
    }
  }

  /** Entries of one challenge have one key per distinct tag. */
  lemma KeysAreTags<F, P>(w: World<F, P>, ch: Challenge, es: seq<Entry<P>>, tags: seq<Digest>)
    requires |es| == |tags|
    requires forall k :: 0 <= k < |es| ==> es[k].challenge == ch && es[k].presentation.tag == tags[k]
    ensures |Keys(w, es)| == |TagSet(tags)|
  {
    hide ScopeOf;
    var scope := ScopeOf(w.pk, ch);
    var pairs := set t | t in TagSet(tags) :: (scope, t);
    forall pair
      ensures pair in Keys(w, es) <==> pair in pairs
    {
      if pair in Keys(w, es) {
        var k :| 0 <= k < |es| && pair == Key(w, es[k]);
        assert tags[k] in TagSet(tags);
      }
      if pair in pairs {
        var k :| 0 <= k < |tags| && pair == (scope, tags[k]);
        assert pair == Key(w, es[k]);
      }
    }
    assert Keys(w, es) == pairs;
    PairsOf(scope, TagSet(tags));
  }

  lemma EmittedVerifies<F(!new), P(!new)>(w: World<F, P>, ch: Challenge, hs: seq<Holder>, e: Entry<P>)
    requires Working(w) && Signs(w, ch.credentialContext, hs) && FromSome(w, ch, hs, e)
    ensures e.challenge == ch && VerifyProofOnly(w.ps, w.pk, ch, e.presentation).Ok?
  {
    hide Working, VerifyProofOnly, EmitAt, Authentic, Target, DeriveTag;
    var j :| 0 <= j < |hs| && EmittedBy(w, CredentialOf(w, ch.credentialContext, hs[j]), ch, e);
    var c := CredentialOf(w, ch.credentialContext, hs[j]);
    var i: nat :| i < ch.limit && EmitAt(w, c, ch, i) == Ok(e.presentation) && e.challenge == ch;
    Enrolled(w, ch.credentialContext, hs[j]);
    PresentsInOrder(w, c, ch, i);
  }

  /** What the honest run leaves: an answer for every holder, and one acceptance
      per distinct tag, each of an entry that some holder emitted. */
  lemma HonestOutcome<F(!new), P(!new)>(w: World<F, P>, ch: Challenge, hs: seq<Holder>)
    requires Working(w) && Signs(w, ch.credentialContext, hs)
    ensures var s := Run(w, HonestRun(w, ch, hs));
            && AllAnswered(w, ch.credentialContext, hs, s.issued)
            && |s.accepted| == |TagSet(AllTags(ScopeOf(w.pk, ch), ch.limit, hs))|
            && forall i :: 0 <= i < |s.accepted| ==> FromSome(w, ch, hs, s.accepted[i])
  {
    hide Lawful, Complete, Willing, SamplesPreimages, Signs, FromSome, Key, Keys, AllTags, AllEntries, ScopeOf, Run,
      AllAnswered, TagSet, SignEvents, VerifyProofOnly;
    var es, tags := AllEntries(w, ch, hs), AllTags(ScopeOf(w.pk, ch), ch.limit, hs);
    AllSigned(w, ch.credentialContext, hs);
    AllEntriesInOrder(w, ch, hs);
    forall k | 0 <= k < |es|
      ensures es[k].challenge == ch && VerifyProofOnly(w.ps, w.pk, es[k].challenge, es[k].presentation).Ok?
    {
      EmittedVerifies(w, ch, hs, es[k]);
    }
    AllSubmitted(w, SignEvents(w, ch.credentialContext, hs), es);
    KeysAreTags(w, ch, es, tags);
  }

  lemma {:induction false} IndexCount(all: set<nat>, n: nat)
    requires forall i: nat :: i in all <==> i < n
    ensures |all| == n
    decreases n
  {
    if n == 0 {
      assert all == {};
    } else {
      IndexCount(all - {n - 1}, n - 1);
    }
  }

  /** The honest yield: when every holder enrols and presents up to the limit,
      the bucket accepts exactly as many presentations as there are distinct
      tags among all their nonces. */
  lemma HonestYield<F(!new), P(!new)>(w: World<F, P>, ch: Challenge, hs: seq<Holder>)
    requires Working(w) && Signs(w, ch.credentialContext, hs)
    ensures var s := Run(w, HonestRun(w, ch, hs));
            |AcceptedIn(w, s, CredentialScope(w.pk.context, ch.credentialContext), ScopeOf(w.pk, ch))|
            == |TagSet(AllTags(ScopeOf(w.pk, ch), ch.limit, hs))|
  {
    hide Lawful, Complete, Willing, SamplesPreimages, Signs, FromSome, AllTags, ScopeOf, CredentialScope, Run,
      HonestRun, TagSet, VerifyProofOnly, AllAnswered;
    var s := Run(w, HonestRun(w, ch, hs));
    HonestOutcome(w, ch, hs);
    forall i | 0 <= i < |s.accepted|
      ensures s.accepted[i].challenge == ch
    {
      EmittedVerifies(w, ch, hs, s.accepted[i]);
    }
    IndexCount(AcceptedIn(w, s, CredentialScope(w.pk.context, ch.credentialContext), ScopeOf(w.pk, ch)), |s.accepted|);
  }

  ghost predicate NoRepeats(tags: seq<Digest>) {
    forall i, j :: 0 <= i < j < |tags| ==> tags[i] != tags[j]
  }

  lemma {:induction false} DistinctTags(tags: seq<Digest>)
    requires NoRepeats(tags)
    ensures |TagSet(tags)| == |tags|
  {
    if tags == [] {
      assert TagSet(tags) == {};
    } else {
      var n := |tags| - 1;
      DistinctTags(tags[..n]);
      assert tags == tags[..n] + [tags[n]];
      assert TagSet(tags) == TagSet(tags[..n]) + {tags[n]};
      assert tags[n] !in tags[..n];
    }
  }

  /** The bucket holds as many acceptances as lineages times limit. */
  ghost predicate AttainsBound<F, P>(w: World<F, P>, events: seq<Event<P>>, ch: Challenge)
    requires w.pk.suite.Fits() && ExtractionHolds(w, Run(w, events))
  {
    var s := Run(w, events);
    var credential := CredentialScope(w.pk.context, ch.credentialContext);
    |AcceptedIn(w, s, credential, ScopeOf(w.pk, ch))| == |LineagesUnder(w, s, credential)| * ch.limit
  }

  /** Without tag collisions, q holders obtain q * limit acceptances, which is
      the bound of the accounting theorem for every q and every limit. */
  lemma YieldAttainsBound<F(!new), P(!new)>(w: World<F, P>, ch: Challenge, hs: seq<Holder>)
    requires Working(w) && Signs(w, ch.credentialContext, hs) && NoRepeats(AllTags(ScopeOf(w.pk, ch), ch.limit, hs))
    requires Hypotheses(w, Run(w, HonestRun(w, ch, hs)))
    ensures AttainsBound(w, HonestRun(w, ch, hs), ch)
    ensures var credential := CredentialScope(w.pk.context, ch.credentialContext);
            |AcceptedIn(w, Run(w, HonestRun(w, ch, hs)), credential, ScopeOf(w.pk, ch))| == |hs| * ch.limit
  {
    hide Lawful, Complete, Willing, SamplesPreimages, Signs, FromSome, AllTags, ScopeOf, CredentialScope, Run,
      HonestRun, TagSet, VerifyProofOnly, ExtractionHolds, AuthenticationHolds, BindingHolds, Lineages, NoRepeats;
    var s := Run(w, HonestRun(w, ch, hs));
    var credential := CredentialScope(w.pk.context, ch.credentialContext);
    HonestYield(w, ch, hs);
    DistinctTags(AllTags(ScopeOf(w.pk, ch), ch.limit, hs));
    AllTagsCount(ScopeOf(w.pk, ch), ch.limit, hs);
    HonestOutcome(w, ch, hs);
    forall i | i in AcceptedIn(w, s, credential, ScopeOf(w.pk, ch))
      ensures s.accepted[i].challenge.limit <= ch.limit
    {
      EmittedVerifies(w, ch, hs, s.accepted[i]);
    }
    ScopedAccounting(w, HonestRun(w, ch, hs), credential, ScopeOf(w.pk, ch), ch.limit);
    LineageCount(w, s);
    Fewer(LineagesUnder(w, s, credential), Lineages(w, s));
    TimesMonotone(|LineagesUnder(w, s, credential)|, |hs|, ch.limit);
  }

  lemma Fewer(some: set<Lineage>, all: set<Lineage>)
    requires some <= all
    ensures |some| <= |all|
  {
    assert all == some + (all - some);
  }

  lemma TimesMonotone(a: nat, b: nat, limit: nat)
    requires a <= b
    ensures a * limit <= b * limit
  {
    assert (b - a) * limit >= 0;
  }

  // ----- The hypotheses can be met

  ghost function TransparentWorld<F(!new)>(pk: PublicKey<F>, sample: Sampler): (w: World<F, Transparent>) {
    World(pk, TransparentBackend(pk.system), sample, ReadWitness())
  }

  function LineageOf<F>(pk: PublicKey<F>, cc: Digest, h: Holder): (l: Lineage) {
    Lineage(CredentialScope(pk.context, cc), h.secret, h.hidingNonce)
  }

  lemma RequestExtracted<F(!new)>(pk: PublicKey<F>, sample: Sampler, cc: Digest, h: Holder)
    requires pk.suite.Fits() && Lawful(pk.system)
    requires PrepareIssue(TransparentBackend(pk.system), pk, cc, h.secret, h.hidingNonce, h.coins).Ok?
    ensures var w := TransparentWorld(pk, sample);
            var r := Issued(cc, RequestOf(w, cc, h));
            IssueExtracted(w, r) && IssuedLineage(w, r) == LineageOf(pk, cc, h)
            && r.request.commitment == LineageHash(pk.suite, LineageOf(pk, cc, h))
  {
    hide AllHold, IssueAssertions, IssueWitness, CredentialTarget, IssueSecret, IssueHidingNonce, IssueStatementOf;
    LawfulHasField(pk.system);
    hide Lawful;
    var circuit := IssueCircuitOf(pk, cc, Commitment(pk, cc, h.secret, h.hidingNonce));
    IssueComplete(pk.system, pk.suite, circuit, h.secret, h.hidingNonce);
    IssueWitnessDecodes(circuit, h.secret, h.hidingNonce);
  }

  /** In the transparent world a presentation carries the witness itself. */
  lemma ProofIsWitness<F(!new)>(pk: PublicKey<F>, c: CredentialState, ch: Challenge)
    requires pk.suite.Fits() && PresentResult(c, TransparentBackend(pk.system), pk, ch, 0).Ok?
    ensures var p := PresentResult(c, TransparentBackend(pk.system), pk, ch, 0).value;
            var circuit := CircuitOf(pk, ch, p.tag);
            && p.proof.1 == PresentationWitness(pk.suite, circuit,
                 SecretsOf(c, NextNonce(c.nextNonces, ch.presentationContext)))
            && Satisfied(pk.system, PresentationCompiled(pk, ch, p.tag), p.proof.1)
  {
    hide AllHold, PresentationAssertions, PresentationWitness, StatementOf, CircuitOf, TagAt;
  }

  lemma WitnessExtracted<F(!new)>(pk: PublicKey<F>, sample: Sampler, e: Entry<Transparent>, s: Secrets)
    requires pk.suite.Fits() && |s.signature| == pk.suite.kn
    requires var circuit := CircuitOf(pk, e.challenge, e.presentation.tag);
             && e.presentation.proof.1 == PresentationWitness(pk.suite, circuit, s)
             && Satisfied(pk.system, PresentationCompiled(pk, e.challenge, e.presentation.tag), e.presentation.proof.1)
    ensures var w := TransparentWorld(pk, sample);
            Extracted(w, e) && PresentedLineage(w, e)
            == Lineage(CredentialScope(pk.context, e.challenge.credentialContext), s.secret, s.hidingNonce)
  {
    hide AllHold, PresentationAssertions, PresentationWitness, DecodeSecrets, StatementOf, CircuitOf, CredentialScope;
    PresentationWitnessDecodes(pk.suite, CircuitOf(pk, e.challenge, e.presentation.tag), s);
  }

  lemma EntryExtracted<F(!new)>(pk: PublicKey<F>, sample: Sampler, ch: Challenge, h: Holder, e: Entry<Transparent>)
    requires Working(TransparentWorld(pk, sample)) && sample(Target(pk, ch.credentialContext, h), h.coins).Some?
    requires EmittedBy(TransparentWorld(pk, sample),
        CredentialOf(TransparentWorld(pk, sample), ch.credentialContext, h), ch, e)
    ensures var w := TransparentWorld(pk, sample);
            Extracted(w, e) && PresentedLineage(w, e) == LineageOf(pk, ch.credentialContext, h)
  {
    hide Target, Authentic, AllHold, DeriveTag, PresentResult, RunState, Lawful, Complete, Willing, SamplesPreimages,
      TransparentBackend, Extracted, PresentedLineage, CredentialScope, PresentationAssertions, PresentationWitness,
      CircuitOf, VerifyProofOnly;
    var w := TransparentWorld(pk, sample);
    var c := CredentialOf(w, ch.credentialContext, h);
    var i: nat :| i < ch.limit && EmitAt(w, c, ch, i) == Ok(e.presentation) && e.challenge == ch;
    var before := RunState(c, w.ps, Calls(pk, ch, i));
    Enrolled(w, ch.credentialContext, h);
    PresentsInOrder(w, c, ch, i);
    ProofIsWitness(pk, before, ch);
    RunInvariant(c, w.ps, Calls(pk, ch, i), ch.presentationContext);
    SignatureLength(pk, c);
    assert before.(nextNonces := map[]) == c;
    WitnessExtracted(pk, sample, e, SecretsOf(before, i));
  }

  /** No two holders open one commitment differently. */
  ghost predicate BindingAmong<F>(pk: PublicKey<F>, cc: Digest, hs: seq<Holder>) {
    forall i, j :: 0 <= i < |hs| && 0 <= j < |hs| ==>
      SameOpening(pk.suite, LineageOf(pk, cc, hs[i]), LineageOf(pk, cc, hs[j]))
  }

  /** The transparent honest run has extractable proofs, only issued lineages,
      and no more collisions than the holders' own openings. */
  lemma TransparentHypotheses<F(!new)>(pk: PublicKey<F>, sample: Sampler, ch: Challenge, hs: seq<Holder>)
    requires Working(TransparentWorld(pk, sample)) && Signs(TransparentWorld(pk, sample), ch.credentialContext, hs)
    requires BindingAmong(pk, ch.credentialContext, hs)
    ensures var w := TransparentWorld(pk, sample);
            Hypotheses(w, Run(w, HonestRun(w, ch, hs)))
  {
    hide Lawful, Complete, Willing, SamplesPreimages, EmittedBy, TransparentBackend, IssueExtracted, Extracted,
      IssuedLineage, PresentedLineage, LineageHash, LineageOf, CarriesAuthenticator, Target, HonestRun, Run,
      SameOpening, PrepareIssue, CredentialOf;
    var w := TransparentWorld(pk, sample);
    var cc := ch.credentialContext;
    var s := Run(w, HonestRun(w, ch, hs));
    HonestOutcome(w, ch, hs);
    forall i | 0 <= i < |s.issued|
      ensures IssueExtracted(w, s.issued[i]) && IssuedLineage(w, s.issued[i]) == LineageOf(pk, cc, hs[i])
      ensures s.issued[i].request.commitment == LineageHash(pk.suite, LineageOf(pk, cc, hs[i]))
    {
      RequestExtracted(pk, sample, cc, hs[i]);
    }
    forall i | 0 <= i < |s.accepted|
      ensures Extracted(w, s.accepted[i])
      ensures exists j :: 0 <= j < |hs| && PresentedLineage(w, s.accepted[i]) == LineageOf(pk, cc, hs[j])
    {
      var j :| 0 <= j < |hs| && EmittedBy(w, CredentialOf(w, cc, hs[j]), ch, s.accepted[i]);
      EntryExtracted(pk, sample, ch, hs[j], s.accepted[i]);
    }
    forall i | 0 <= i < |s.accepted|
      ensures Answered(s, PresentedCommitment(w, s.accepted[i]))
    {
      var j :| 0 <= j < |hs| && PresentedLineage(w, s.accepted[i]) == LineageOf(pk, cc, hs[j]);
      assert s.issued[j].request.commitment == PresentedCommitment(w, s.accepted[i]);
    }
  }

  /** A MAYO map that keeps the first m coordinates: every target has a preimage. */
  function TruncatingMap(suite: Suite): (eval: seq<bv4> -> seq<bv4>) {
    (v: seq<bv4>) => if |v| >= suite.m then v[..suite.m] else v
  }

  function TruncatingSampler(suite: Suite): (sample: Sampler)
    requires suite.m <= suite.kn
  {
    (target: seq<bv4>, coins: nat) =>
      if |target| == suite.m then Some(target + seq(suite.kn - suite.m, i => 0)) else None
  }

  ghost function TruncatingKey(suite: Suite, context: Digest): (pk: PublicKey<bv4>) {
    LawsHaveAModel(TruncatingMap(suite));
    var sys: System<bv4> :| Lawful(sys) && sys.eval == TruncatingMap(suite);
    PublicKey(suite, context, sys)
  }

  lemma TruncatingWorks(suite: Suite, context: Digest)
    requires suite.Fits() && suite.m <= suite.kn
    ensures Working(TransparentWorld(TruncatingKey(suite, context), TruncatingSampler(suite)))
  {
    hide AllHold, Lawful;
  }

  /** Every law of the backend and of the MAYO map, at once. */
  ghost predicate LawfulWorld<F(!new), P(!new)>(w: World<F, P>) {
    Working(w) && Sound(w.ps, w.pk.system, w.extract) && BindsStatements(w.ps)
  }

  /** The bound is attained for every number of lineages and every limit. For any
      parameter set, any challenge and any q openings that bind and whose tags do
      not collide, some lawful deployment has a run that meets the hypotheses and
      accepts q * limit presentations, the bound of the accounting theorem. */
  lemma BoundIsAttained(suite: Suite, context: Digest, ch: Challenge, hs: seq<Holder>)
    requires suite.Fits() && suite.m <= suite.kn
    requires NoRepeats(AllTags(PresentationScope(context, ch.credentialContext, ch.presentationContext), ch.limit, hs))
    requires forall i, j :: 0 <= i < |hs| && 0 <= j < |hs| ==>
               var scope := CredentialScope(context, ch.credentialContext);
               SameOpening(suite, Lineage(scope, hs[i].secret, hs[i].hidingNonce),
                 Lineage(scope, hs[j].secret, hs[j].hidingNonce))
    ensures exists w: World<bv4, Transparent>, events: seq<Event<Transparent>> ::
              && w.pk.suite == suite && w.pk.context == context && LawfulWorld(w) && Hypotheses(w, Run(w, events))
              && AttainsBound(w, events, ch)
              && |AcceptedIn(w, Run(w, events), CredentialScope(context, ch.credentialContext), ScopeOf(w.pk, ch))|
                   == |hs| * ch.limit
  {
    hide AllTags, SameOpening, Hypotheses, AttainsBound, Run, HonestRun, AcceptedIn, NoRepeats, CredentialScope;
    var pk, sample := TruncatingKey(suite, context), TruncatingSampler(suite);
    var w := TransparentWorld(pk, sample);
    assert Working(w) by { TruncatingWorks(suite, context); }
    assert LawfulWorld(w) by { TransparentIsLawful(pk.system); }
    hide Sound, BindsStatements, Complete, Willing;
    forall i | 0 <= i < |hs|
      ensures sample(Target(pk, ch.credentialContext, hs[i]), hs[i].coins).Some?
    {
    }
    TransparentHypotheses(pk, sample, ch, hs);
    YieldAttainsBound(w, ch, hs);
  }

  /** One holder under limit one meets every condition, so there are lawful
      deployments with runs that meet the hypotheses and accept something. */
  lemma HypothesesAreMet(suite: Suite, context: Digest, ch: Challenge, h: Holder)
    requires suite.Fits() && suite.m <= suite.kn && ch.limit == 1
    ensures exists w: World<bv4, Transparent>, events: seq<Event<Transparent>> ::
              && w.pk.suite == suite && w.pk.context == context && LawfulWorld(w) && Hypotheses(w, Run(w, events))
              && |AcceptedIn(w, Run(w, events), CredentialScope(context, ch.credentialContext), ScopeOf(w.pk, ch))| == 1
  {
    hide LineageHash, PresentationScope, CredentialScope, DeriveTag, Hypotheses, AttainsBound, Run, AcceptedIn, Lawful,
      ScopeOf, AllTags;
    AllTagsCount(PresentationScope(context, ch.credentialContext, ch.presentationContext), ch.limit, [h]);
    BoundIsAttained(suite, context, ch, [h]);
  }
}
