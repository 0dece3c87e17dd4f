/** Attenuating capability chains and the default-deny resolver. Keys are their hex strings. */
module Capabilities {
  import opened ByteStrings
  import opened Collections

  const MAX_CHAIN_LINKS: nat := 32
  const MAX_CANDIDATES: nat := 64

  /** `None` on a dimension means unrestricted. */
  datatype Grant = Grant(id: string, issuer: string, subject: string, actions: seq<string>,
                         ceiling: Option<int>, cap: Option<int>, counterparties: Option<seq<string>>,
                         maxTier: int, notBefore: int, notAfter: int, delegable: bool)

  datatype Intent = Intent(action: string, counterparty: Option<string>, amount: Option<int>)

  datatype Context = Context(now: int, tier: int, observedAggregate: int, holder: Option<string>)

  // --- grants ---

  predicate TimeAllows(notBefore: int, notAfter: int, now: int) {
    Safe(now) && Safe(notBefore) && Safe(notAfter) && notBefore <= now <= notAfter
  }

  predicate TierAllows(maxTier: int, tier: int) {
    SafeNat(tier) && SafeNat(maxTier) && tier <= maxTier
  }

  predicate CounterpartyAllows(counterparties: Option<seq<string>>, counterparty: Option<string>) {
    counterparties.Some? ==> counterparty.Some? && counterparty.value in counterparties.value
  }

  /** A limit that is set is in range and not exceeded. */
  predicate LimitAllows(limit: Option<int>, amount: int) {
    limit.Some? ==> SafeNat(limit.value) && amount <= limit.value
  }

  function AmountOf(intent: Intent): int {
    if intent.amount.Some? then intent.amount.value else 0
  }

  predicate AuthorizesIntent(g: Grant, intent: Intent, ctx: Context) {
    && intent.action in g.actions
    && TimeAllows(g.notBefore, g.notAfter, ctx.now)
    && TierAllows(g.maxTier, ctx.tier)
    && CounterpartyAllows(g.counterparties, intent.counterparty)
    && (intent.amount.Some? ==> SafeNat(intent.amount.value))
    && SafeNat(ctx.observedAggregate)
    && LimitAllows(g.ceiling, AmountOf(intent))
    && LimitAllows(g.cap, ctx.observedAggregate + AmountOf(intent))
  }

  predicate CeilingNarrows(child: Option<int>, parent: Option<int>) {
    parent.Some? ==> child.Some? && child.value <= parent.value
  }

  predicate Subset(a: seq<string>, b: seq<string>) {
    forall i :: 0 <= i < |a| ==> a[i] in b
  }

  predicate SetNarrows(child: Option<seq<string>>, parent: Option<seq<string>>) {
    parent.Some? ==> child.Some? && Subset(child.value, parent.value)
  }

  predicate WellFormed(g: Grant) {
    && SafeNat(g.maxTier) && Safe(g.notBefore) && Safe(g.notAfter)
    && (g.ceiling.Some? ==> SafeNat(g.ceiling.value)) && (g.cap.Some? ==> SafeNat(g.cap.value))
  }

  predicate IsAttenuationOf(child: Grant, parent: Grant) {
    && WellFormed(child) && WellFormed(parent)
    && child.issuer == parent.subject
    && Subset(child.actions, parent.actions)
    && CeilingNarrows(child.ceiling, parent.ceiling)
    && CeilingNarrows(child.cap, parent.cap)
    && SetNarrows(child.counterparties, parent.counterparties)
    && child.maxTier <= parent.maxTier
    && child.notBefore >= parent.notBefore && child.notAfter <= parent.notAfter
    && (child.delegable ==> parent.delegable)
  }

  /** What an attenuation authorizes, its parent authorizes. */
  lemma AttenuationShrinks(child: Grant, parent: Grant, intent: Intent, ctx: Context)
    requires IsAttenuationOf(child, parent) && AuthorizesIntent(child, intent, ctx)
    ensures AuthorizesIntent(parent, intent, ctx)
  {
    var i :| 0 <= i < |child.actions| && child.actions[i] == intent.action;
    if parent.counterparties.Some? {
      var cs := child.counterparties.value;
      var j :| 0 <= j < |cs| && cs[j] == intent.counterparty.value;
    }
  }

  // --- narrowing ---

  datatype Attenuation = Attenuation(actions: Option<seq<string>>, ceiling: Option<int>, cap: Option<int>,
                                     counterparties: Option<seq<string>>, maxTier: Option<int>,
                                     notBefore: Option<int>, notAfter: Option<int>, delegable: Option<bool>)

  function Filter(xs: seq<string>, keep: seq<string>): (r: seq<string>)
    ensures Subset(r, keep)
    ensures forall x :: x in r <==> x in xs && x in keep
  {
    if xs == [] then []
    else
      var rest := Filter(xs[1..], keep);
      if xs[0] in keep then [xs[0]] + rest else rest
  }

  function Min(a: int, b: int): int {
    if a <= b then a else b
  }

  function Max(a: int, b: int): int {
    if a >= b then a else b
  }

  function MinOption(a: Option<int>, b: Option<int>): Option<int> {
    if a.None? then b else if b.None? then a else Some(Min(a.value, b.value))
  }

  function Or<T>(a: Option<T>, default: T): T {
    if a.Some? then a.value else default
  }

  function Narrow(parent: Grant, r: Attenuation, id: string, issuer: string, subject: string): Grant {
    Grant(id, issuer, subject,
          Filter(Or(r.actions, parent.actions), parent.actions),
          MinOption(r.ceiling, parent.ceiling),
          MinOption(r.cap, parent.cap),
          NarrowSet(r.counterparties, parent.counterparties),
          Min(Or(r.maxTier, parent.maxTier), parent.maxTier),
          Max(Or(r.notBefore, parent.notBefore), parent.notBefore),
          Min(Or(r.notAfter, parent.notAfter), parent.notAfter),
          Or(r.delegable, parent.delegable) && parent.delegable)
  }

  /** The requested numbers leave the dimensions they take effect on in range. */
  predicate Fits(r: Attenuation, parent: Grant) {
    && (r.maxTier.Some? ==> r.maxTier.value >= 0)
    && (r.notBefore.Some? ==> r.notBefore.value <= MAX_SAFE)
    && (r.notAfter.Some? ==> r.notAfter.value >= -MAX_SAFE)
    && (r.ceiling.Some? ==> r.ceiling.value >= 0 && (parent.ceiling.None? ==> r.ceiling.value <= MAX_SAFE))
    && (r.cap.Some? ==> r.cap.value >= 0 && (parent.cap.None? ==> r.cap.value <= MAX_SAFE))
  }

  /** A narrowed grant is an attenuation exactly when the parent is well formed and the requested numbers fit. */
  lemma NarrowAttenuates(parent: Grant, r: Attenuation, id: string, subject: string)
    ensures IsAttenuationOf(Narrow(parent, r, id, parent.subject, subject), parent) <==>
            WellFormed(parent) && Fits(r, parent)
  {
  }

  function NarrowSet(r: Option<seq<string>>, parent: Option<seq<string>>): Option<seq<string>> {
    if r.None? then parent else if parent.None? then r else Some(Filter(r.value, parent.value))
  }

  /** The requested restriction, read as a condition on an intent. */
  predicate Permits(r: Attenuation, intent: Intent, ctx: Context) {
    && (r.actions.Some? ==> intent.action in r.actions.value)
    && (r.ceiling.Some? ==> AmountOf(intent) <= r.ceiling.value)
    && (r.cap.Some? ==> ctx.observedAggregate + AmountOf(intent) <= r.cap.value)
    && CounterpartyAllows(r.counterparties, intent.counterparty)
    && (r.maxTier.Some? ==> ctx.tier <= r.maxTier.value)
    && (r.notBefore.Some? ==> ctx.now >= r.notBefore.value)
    && (r.notAfter.Some? ==> ctx.now <= r.notAfter.value)
  }

  /** A narrowed grant authorizes exactly what both the parent and the restriction allow. */
  lemma NarrowIntersects(parent: Grant, r: Attenuation, id: string, issuer: string, subject: string, intent: Intent,
                         ctx: Context)
    requires WellFormed(parent) && Fits(r, parent)
    ensures AuthorizesIntent(Narrow(parent, r, id, issuer, subject), intent, ctx)
            <==> AuthorizesIntent(parent, intent, ctx) && Permits(r, intent, ctx)
  {
    hide TimeAllows, TierAllows, CounterpartyAllows, LimitAllows, Filter, Min, Max, MinOption, NarrowSet;
    CounterpartiesMeet(r.counterparties, parent.counterparties, intent.counterparty);
    LimitsMeet(r.ceiling, parent.ceiling, AmountOf(intent));
    LimitsMeet(r.cap, parent.cap, ctx.observedAggregate + AmountOf(intent));
    TiersMeet(r.maxTier, parent.maxTier, ctx.tier);
    WindowsMeet(r.notBefore, r.notAfter, parent.notBefore, parent.notAfter, ctx.now);
  }

  lemma CounterpartiesMeet(r: Option<seq<string>>, parent: Option<seq<string>>, c: Option<string>)
    ensures CounterpartyAllows(NarrowSet(r, parent), c) <==> CounterpartyAllows(parent, c) && CounterpartyAllows(r, c)
  {
  }

  lemma LimitsMeet(r: Option<int>, parent: Option<int>, amount: int)
    requires parent.Some? ==> SafeNat(parent.value)
    requires r.Some? ==> r.value >= 0 && (parent.None? ==> r.value <= MAX_SAFE)
    ensures LimitAllows(MinOption(r, parent), amount) <==>
            LimitAllows(parent, amount) && (r.Some? ==> amount <= r.value)
  {
  }

  lemma TiersMeet(r: Option<int>, parent: int, tier: int)
    requires SafeNat(parent) && (r.Some? ==> r.value >= 0)
    ensures TierAllows(Min(Or(r, parent), parent), tier) <==> TierAllows(parent, tier) && (r.Some? ==> tier <= r.value)
  {
  }

  lemma WindowsMeet(from: Option<int>, until: Option<int>, notBefore: int, notAfter: int, now: int)
    requires Safe(notBefore) && Safe(notAfter) && (from.Some? ==> from.value <= MAX_SAFE)
             && (until.Some? ==> until.value >= -MAX_SAFE)
    ensures TimeAllows(Max(Or(from, notBefore), notBefore), Min(Or(until, notAfter), notAfter), now) <==>
            && TimeAllows(notBefore, notAfter, now)
            && (from.Some? ==> now >= from.value) && (until.Some? ==> now <= until.value)
  {
  }

  // --- chains ---

  datatype Link = Link(grant: Grant, suite: string, signer: string, sig: Bytes)

  type Capability = seq<Link>

  datatype KeyPair = KeyPair(public: string, secret: Bytes)

  datatype Crypto = Crypto(
    /** The id of a grant's contents; the id field itself is left out. */
    deriveId: Grant -> string,
    /** Suite, signature, signed suite and grant, hex key. */
    verify: (string, Bytes, Grant, string) -> bool,
    sign: (string, Grant, Bytes) -> Bytes,
    activeSuites: set<string>)

  function IdOf(cx: Crypto, g: Grant): string {
    cx.deriveId(g.(id := ""))
  }

  /** Link `i` follows from the one before it, or from a trusted root. */
  predicate LinkAccepted(cx: Crypto, chain: Capability, trusted: set<string>, i: nat)
    requires i < |chain|
  {
    var link := chain[i];
    && link.suite in cx.activeSuites && link.suite == chain[0].suite
    && link.grant.issuer == link.signer
    && link.grant.id == IdOf(cx, link.grant)
    && cx.verify(link.suite, link.sig, link.grant, link.signer)
    && if i == 0 then link.signer in trusted
       else chain[i - 1].grant.delegable && link.signer == chain[i - 1].grant.subject
            && IsAttenuationOf(link.grant, chain[i - 1].grant)
  }

  predicate Accepts(cx: Crypto, chain: Capability, trusted: set<string>) {
    0 < |chain| <= MAX_CHAIN_LINKS && forall i :: 0 <= i < |chain| ==> LinkAccepted(cx, chain, trusted, i)
  }

  method VerifyChain(cx: Crypto, chain: Capability, trusted: set<string>) returns (ok: bool)
    ensures ok == Accepts(cx, chain, trusted)
  {
    if |chain| == 0 || |chain| > MAX_CHAIN_LINKS { return false; }
    for i := 0 to |chain|
      invariant forall j :: 0 <= j < i ==> LinkAccepted(cx, chain, trusted, j)
    {
      var link := chain[i];
      ok := link.suite in cx.activeSuites && link.suite == chain[0].suite && link.grant.issuer == link.signer;
      ok := ok && link.grant.id == IdOf(cx, link.grant) && cx.verify(link.suite, link.sig, link.grant, link.signer);
      if ok && i == 0 {
        ok := link.signer in trusted;
      } else if ok {
        var prev := chain[i - 1].grant;
        ok := prev.delegable && link.signer == prev.subject && IsAttenuationOf(link.grant, prev);
      }
      if !ok {
        assert !LinkAccepted(cx, chain, trusted, i);
        return false;
      }
    }
    ok := true;
  }

  /** On an accepted chain, what a link authorizes every earlier link authorizes, the trusted root included. */
  lemma {:induction false} ChainAttenuates(cx: Crypto, chain: Capability, trusted: set<string>, i: nat, j: nat,
                                           intent: Intent, ctx: Context)
    requires Accepts(cx, chain, trusted) && i <= j < |chain| && AuthorizesIntent(chain[j].grant, intent, ctx)
    ensures AuthorizesIntent(chain[i].grant, intent, ctx)
    decreases j
  {
    if i >= j {
    } else {
      assert LinkAccepted(cx, chain, trusted, j);
      AttenuationShrinks(chain[j].grant, chain[j - 1].grant, intent, ctx);
      ChainAttenuates(cx, chain, trusted, i, j - 1, intent, ctx);
    }
  }

  // --- issuing and delegating ---

  /** The link that signs a grant, its id filled in. */
  function Signed(cx: Crypto, g: Grant, suite: string, key: KeyPair): Link {
    var grant := g.(id := IdOf(cx, g));
    Link(grant, suite, key.public, cx.sign(suite, grant, key.secret))
  }

  function IssueRoot(cx: Crypto, spec: Grant, suite: string, authority: KeyPair): Capability {
    [Signed(cx, spec.(issuer := authority.public), suite, authority)]
  }

  function Attenuate(cx: Crypto, parent: Capability, r: Attenuation, newSubject: string,
                     delegator: KeyPair): Option<Capability> {
    if parent == [] then None
    else
      var tail := parent[|parent| - 1];
      if !tail.grant.delegable || delegator.public != tail.grant.subject then None
      else
        var link := Signed(cx, Narrow(tail.grant, r, "", tail.grant.subject, newSubject), tail.suite, delegator);
        if IsAttenuationOf(link.grant, tail.grant) then Some(parent + [link]) else None
  }

  datatype Delegation = Delegation(r: Attenuation, subject: string, delegator: KeyPair)

  /** The capability after issuing a root and delegating; `None` once a delegation is refused. */
  function Delegated(cx: Crypto, spec: Grant, suite: string, authority: KeyPair,
                     steps: seq<Delegation>): Option<Capability> {
    if steps == [] then Some(IssueRoot(cx, spec, suite, authority))
    else
      var n := |steps| - 1;
      match Delegated(cx, spec, suite, authority, steps[..n])
      case None => None
      case Some(c) => Attenuate(cx, c, steps[n].r, steps[n].subject, steps[n].delegator)
  }

  /** Signatures of these keys verify under the suite. */
  ghost predicate KeysSign(cx: Crypto, suite: string, keys: set<KeyPair>) {
    forall key, g :: key in keys ==> cx.verify(suite, cx.sign(suite, g, key.secret), g, key.public)
  }

  ghost function Keys(authority: KeyPair, steps: seq<Delegation>): set<KeyPair> {
    {authority} + set d | d in steps :: d.delegator
  }

  lemma {:induction false} DelegatedLinks(cx: Crypto, spec: Grant, suite: string, authority: KeyPair,
                                          steps: seq<Delegation>, trusted: set<string>)
    requires suite in cx.activeSuites && authority.public in trusted && KeysSign(cx, suite, Keys(authority, steps))
    requires Delegated(cx, spec, suite, authority, steps).Some?
    ensures var c := Delegated(cx, spec, suite, authority, steps).value;
            && |c| == |steps| + 1 && c[0].suite == suite
            && (forall i :: 0 <= i < |c| ==> LinkAccepted(cx, c, trusted, i))
    decreases |steps|
  {
    if steps == [] {
      var g := spec.(issuer := authority.public);
      assert g.(id := IdOf(cx, g)).(id := "") == g.(id := "");
    } else {
      var n := |steps| - 1;
      assert steps[n] in steps;
      assert Keys(authority, steps[..n]) <= Keys(authority, steps);
      DelegatedLinks(cx, spec, suite, authority, steps[..n], trusted);
      var before := Delegated(cx, spec, suite, authority, steps[..n]).value;
      Extended(cx, before, suite, steps[n], trusted);
    }
  }

  lemma Extended(cx: Crypto, before: Capability, suite: string, d: Delegation, trusted: set<string>)
    requires before != [] && before[0].suite == suite && suite in cx.activeSuites
    requires forall i :: 0 <= i < |before| ==> LinkAccepted(cx, before, trusted, i)
    requires forall g :: cx.verify(suite, cx.sign(suite, g, d.delegator.secret), g, d.delegator.public)
    requires Attenuate(cx, before, d.r, d.subject, d.delegator).Some?
    ensures var c := Attenuate(cx, before, d.r, d.subject, d.delegator).value;
            |c| == |before| + 1 && c[0].suite == suite && forall i :: 0 <= i < |c| ==> LinkAccepted(cx, c, trusted, i)
  {
    hide IsAttenuationOf, Narrow;
    var c := Attenuate(cx, before, d.r, d.subject, d.delegator).value;
    var n := |before|;
    var tail := before[n - 1];
    assert LinkAccepted(cx, before, trusted, n - 1);
    var g := Narrow(tail.grant, d.r, "", tail.grant.subject, d.subject);
    NarrowIssuer(tail.grant, d.r, "", tail.grant.subject, d.subject);
    assert g.(id := IdOf(cx, g)).(id := "") == g.(id := "");
    forall i | 0 <= i < |c|
      ensures LinkAccepted(cx, c, trusted, i)
    {
      if i < n { assert LinkAccepted(cx, before, trusted, i); }
    }
  }

  lemma NarrowIssuer(parent: Grant, r: Attenuation, id: string, issuer: string, subject: string)
    ensures Narrow(parent, r, id, issuer, subject).issuer == issuer
  {
  }

  /** A capability built by issuing and delegating is accepted exactly up to the limit on links. */
  lemma DelegatedAccepted(cx: Crypto, spec: Grant, suite: string, authority: KeyPair, steps: seq<Delegation>,
                          trusted: set<string>)
    requires suite in cx.activeSuites && authority.public in trusted && KeysSign(cx, suite, Keys(authority, steps))
    requires Delegated(cx, spec, suite, authority, steps).Some?
    ensures Accepts(cx, Delegated(cx, spec, suite, authority, steps).value, trusted) <==> |steps| < MAX_CHAIN_LINKS
  {
    DelegatedLinks(cx, spec, suite, authority, steps, trusted);
  }

  // --- resolution ---

  predicate Authorizes(cx: Crypto, c: Capability, intent: Intent, trusted: set<string>, ctx: Context,
                       revoked: set<string>) {
    && Accepts(cx, c, trusted)
    && (forall i :: 0 <= i < |c| ==> c[i].grant.id !in revoked)
    && ctx.holder == Some(c[|c| - 1].grant.subject)
    && (forall i :: 0 <= i < |c| ==> AuthorizesIntent(c[i].grant, intent, ctx))
  }

  /** The first candidate that authorizes the intent. */
  function Resolved(cx: Crypto, intent: Intent, candidates: seq<Capability>, trusted: set<string>, ctx: Context,
                    revoked: set<string>, from: nat): (r: Option<Capability>)
    requires from <= |candidates|
    ensures r.Some? ==> r.value in candidates && Authorizes(cx, r.value, intent, trusted, ctx, revoked)
    ensures r.None? ==> forall i :: from <= i < |candidates| ==>
            !Authorizes(cx, candidates[i], intent, trusted, ctx, revoked)
    decreases |candidates| - from
  {
    if from == |candidates| then None
    else if Authorizes(cx, candidates[from], intent, trusted, ctx, revoked) then Some(candidates[from])
    else Resolved(cx, intent, candidates, trusted, ctx, revoked, from + 1)
  }

  function Resolution(cx: Crypto, intent: Intent, candidates: seq<Capability>, trusted: set<string>, ctx: Context,
                      revoked: set<string>): Option<Capability> {
    if ctx.holder.None? || |candidates| > MAX_CANDIDATES then None
    else Resolved(cx, intent, candidates, trusted, ctx, revoked, 0)
  }

  method Resolve(cx: Crypto, intent: Intent, candidates: seq<Capability>, trusted: set<string>, ctx: Context,
                 revoked: set<string>)
    returns (r: Option<Capability>)
    ensures r == Resolution(cx, intent, candidates, trusted, ctx, revoked)
  {
    hide LinkAccepted, AuthorizesIntent;
    if ctx.holder.None? || |candidates| > MAX_CANDIDATES { return None; }
    for i := 0 to |candidates|
      invariant Resolved(cx, intent, candidates, trusted, ctx, revoked, 0)
                == Resolved(cx, intent, candidates, trusted, ctx, revoked, i)
    {
      var c := candidates[i];
      var ok := VerifyChain(cx, c, trusted);
      if !ok { continue; }
      if exists k :: 0 <= k < |c| && c[k].grant.id in revoked { continue; }
      if ctx.holder != Some(c[|c| - 1].grant.subject) { continue; }
      if forall k :: 0 <= k < |c| ==> AuthorizesIntent(c[k].grant, intent, ctx) { return Some(c); }
    }
    r := None;
  }

  /** Checking the last grant would do: it is the most restricted of an accepted chain. */
  lemma TailDecides(cx: Crypto, c: Capability, intent: Intent, trusted: set<string>, ctx: Context, revoked: set<string>)
    requires Accepts(cx, c, trusted) && (forall i :: 0 <= i < |c| ==> c[i].grant.id !in revoked)
    requires ctx.holder == Some(c[|c| - 1].grant.subject)
    ensures Authorizes(cx, c, intent, trusted, ctx, revoked) <==> AuthorizesIntent(c[|c| - 1].grant, intent, ctx)
  {
    if AuthorizesIntent(c[|c| - 1].grant, intent, ctx) {
      forall i | 0 <= i < |c|
        ensures AuthorizesIntent(c[i].grant, intent, ctx)
      {
        ChainAttenuates(cx, c, trusted, i, |c| - 1, intent, ctx);
      }
    }
  }

  /** Revoking more never authorizes more. */
  lemma ResolveAntitone(cx: Crypto, intent: Intent, candidates: seq<Capability>, trusted: set<string>, ctx: Context,
                        revoked: set<string>, revoked': set<string>)
    requires revoked <= revoked' && Resolution(cx, intent, candidates, trusted, ctx, revoked').Some?
    ensures Resolution(cx, intent, candidates, trusted, ctx, revoked).Some?
  {
    hide Accepts, AuthorizesIntent;
    var c := Resolution(cx, intent, candidates, trusted, ctx, revoked').value;
    var i :| 0 <= i < |candidates| && candidates[i] == c;
    assert Authorizes(cx, candidates[i], intent, trusted, ctx, revoked);
  }

  /** The order of the candidates does not matter. */
  lemma ResolveOrderIndependent(cx: Crypto, intent: Intent, candidates: seq<Capability>, candidates': seq<Capability>,
                                trusted: set<string>, ctx: Context, revoked: set<string>)
    requires multiset(candidates) == multiset(candidates')
    ensures Resolution(cx, intent, candidates, trusted, ctx, revoked).Some? <==>
            Resolution(cx, intent, candidates', trusted, ctx, revoked).Some?
  {
    assert |multiset(candidates)| == |candidates| && |multiset(candidates')| == |candidates'|;
    if Resolution(cx, intent, candidates, trusted, ctx, revoked).Some? {
      ResolveAmong(cx, intent, candidates, candidates', trusted, ctx, revoked);
    }
    if Resolution(cx, intent, candidates', trusted, ctx, revoked).Some? {
      ResolveAmong(cx, intent, candidates', candidates, trusted, ctx, revoked);
    }
  }

  lemma ResolveAmong(cx: Crypto, intent: Intent, candidates: seq<Capability>, candidates': seq<Capability>,
                     trusted: set<string>, ctx: Context, revoked: set<string>)
    requires |candidates| == |candidates'| && multiset(candidates) == multiset(candidates')
    requires Resolution(cx, intent, candidates, trusted, ctx, revoked).Some?
    ensures Resolution(cx, intent, candidates', trusted, ctx, revoked).Some?
  {
    hide Authorizes;
    var c := Resolution(cx, intent, candidates, trusted, ctx, revoked).value;
    assert c in multiset(candidates');
    var i :| 0 <= i < |candidates'| && candidates'[i] == c;
  }
}
