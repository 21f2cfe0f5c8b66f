/**
  Crash-tolerant custody of one scoped Transit key, policy and token.

  The world is what survives a crash: the provider's state and the files of the output
  directory.  Every primitive step may fail before, during or after its effect, so that
  every intermediate state of a run is the final state of some run, and what the methods
  ensure on every exit holds at every moment.  Failure stands for a lost response, a failed
  check and a crash alike: the source never goes on after any of them.
*/
module Custody {
  import opened Basics

  type Bytes = seq<byte>

  datatype Outcome = Pass | Failed {
    predicate IsFailure() { Failed? }
    function PropagateFailure(): Outcome requires Failed? { this }
  }

  /** Foreign resources were there before this run. */
  datatype Owner = Nobody | Foreign | Ours

  datatype MintState = NotDispatched | UnknownUntilObserved | Observed

  datatype Pending = Idle | KeyCreate | PolicyWrite | TokenMint | TokenRevoke | PolicyDelete

  datatype Journal = Journal(
    identity: nat, policyCreated: bool, accessor: Option<Bytes>, mintState: MintState,
    mintSha: Option<nat>, tokenSha: Option<nat>, environmentSha: Option<nat>,
    tokenRevoked: bool, policyDeleted: bool, pending: Pending)

  datatype FileName =
    | RuntimeBefore | RuntimeAfter | MintResponse | TokenFile | GrantLookup
    | Environment | RetiredEnvironment | ResultFile | RevokedFile

  /**
    What the surroundings will do.  Under Whatever every step may fail in every way; under Smooth none does, but that
    a crash may stop the writing of the token file after so many bytes.
  */
  datatype Fortune = Whatever | Smooth(crash: Option<nat>)

  /** Where the writing of a new file stops, if anywhere. */
  datatype Stop = Never | BeforeCreation | After(written: nat)

  /** What is only looked at: the script goes on when it is as it should be. */
  datatype Look =
    | Cluster | KeyAbsent | PolicyAbsent | KeyMetadata | UnpublishedAbsent
    | MintScope | Capabilities | ScopedKey | ScopedAbsent | GrantReady

  datatype MintReply = MintReply(status: int, token: Option<Bytes>, accessor: Option<Bytes>)

  function AsciiZeros(n: nat): (s: Bytes)
    ensures |s| == n && forall i :: 0 <= i < n ==> s[i] == 48
  {
    seq(n, i => 48)
  }

  predicate Cleared(s: Bytes) {
    forall i :: 0 <= i < |s| ==> s[i] == 48
  }

  /** Journal fields that record progress never go back. */
  predicate Forward(old_: Option<Journal>, new_: Option<Journal>) {
    old_.Some? ==>
      && new_.Some?
      && var (a, b) := (old_.value, new_.value);
      && a.identity == b.identity
      && (a.policyCreated ==> b.policyCreated)
      && (a.mintState.Observed? ==> b.mintState.Observed? && b.accessor == a.accessor && b.tokenSha == a.tokenSha)
      && (a.mintState.UnknownUntilObserved? ==> !b.mintState.NotDispatched?)
      && (a.mintSha.Some? ==> b.mintSha == a.mintSha)
      && (a.environmentSha.Some? ==> b.environmentSha == a.environmentSha)
      && (a.tokenRevoked ==> b.tokenRevoked)
      && (a.policyDeleted ==> b.policyDeleted)
  }

  /** Printable enough to be a header value: ASCII without line breaks or NUL. */
  predicate IsHeaderSafe(s: Bytes) {
    forall i :: 0 <= i < |s| ==> s[i] < 128 && s[i] !in {0, 10, 13}
  }

  predicate Usable(reply: MintReply) {
    && reply.status in {200, 201} && reply.token.Some? && reply.accessor.Some?
    && 16 <= |reply.token.value| <= 4096 && 8 <= |reply.accessor.value| <= 4096
    && IsHeaderSafe(reply.token.value) && IsHeaderSafe(reply.accessor.value)
  }

  /** The journal says that this request is under way, and records what must be known before it. */
  predicate Announces(j: Journal, request: Pending) {
    && j.pending == request
    && (request.PolicyWrite? ==> j.policyCreated)
    && (request.TokenMint? ==> j.policyCreated && j.mintState.UnknownUntilObserved?)
    && (request.TokenRevoke? ==> j.mintState.Observed?)
    && (request.PolicyDelete? ==> j.tokenRevoked)
  }

  /** A request that changes the provider, and the durable journal when it was sent. */
  datatype Request = Request(kind: Pending, journal: Journal)

  /** Every request was announced, and none that creates something was repeated. */
  ghost predicate WellSent(sent: seq<Request>) {
    && (forall i :: 0 <= i < |sent| ==> Announces(sent[i].journal, sent[i].kind))
    && forall i, j :: 0 <= i < j < |sent| && sent[i].kind == sent[j].kind ==>
        sent[i].kind in {TokenRevoke, PolicyDelete}
  }

  ghost predicate NeverSent(sent: seq<Request>, kind: Pending) {
    forall i :: 0 <= i < |sent| ==> sent[i].kind != kind
  }

  lemma SendOne(sent: seq<Request>, request: Request)
    requires WellSent(sent) && Announces(request.journal, request.kind)
    requires request.kind in {TokenRevoke, PolicyDelete} || NeverSent(sent, request.kind)
    ensures WellSent(sent + [request])
  {
  }

  class World {
    /**
      What the configuration and the provider fix in advance: the token and accessor it will mint, the environment
      with and without its token, the hash, and the usable token that a recorded mint response holds, if any.
    */
    const identity: nat
    const secret: Bytes
    const accessor: Bytes
    const environment: Bytes
    const retired: Bytes
    const sha: Bytes -> nat
    const encodeMint: MintReply -> Bytes
    const tokenOf: Bytes -> Option<Bytes>
    const fortune: Fortune

    // the provider
    var key: Owner
    var policy: Owner
    var minted: bool
    var tokenLive: bool

    // the output directory
    var directory: bool
    var custody: Option<Journal>
    var custodyNext: Option<Bytes>
    var files: map<FileName, Bytes>

    /** The requests sent so far, and the latest observation of the runtime guard. */
    ghost var sent: seq<Request>
    ghost var lastSeen: Option<Bytes>

    /** What has been looked at and found to be as it should. */
    ghost var looked: seq<Look>

    /** The minted token has been answered with a 403 while its policy still granted the read. */
    ghost var refused: bool

    /** Before the first run nothing of ours exists; others may own a key or policy of that name. */
    constructor (identity: nat, secret: Bytes, accessor: Bytes, environment: Bytes, retired: Bytes, sha: Bytes -> nat,
                 encodeMint: MintReply -> Bytes, tokenOf: Bytes -> Option<Bytes>, fortune: Fortune,
                 key: Owner, policy: Owner)
      requires forall a, b :: sha(a) == sha(b) ==> a == b
      requires key != Ours && policy != Ours
      ensures Inv() && CollisionFree() && Untouched() && this.key == key && this.policy == policy
      ensures this.secret == secret && this.accessor == accessor && this.fortune == fortune && this.identity == identity
    {
      this.identity, this.secret, this.accessor, this.sha := identity, secret, accessor, sha;
      this.environment, this.retired, this.encodeMint, this.tokenOf := environment, retired, encodeMint, tokenOf;
      this.fortune, this.key, this.policy, minted, tokenLive := fortune, key, policy, false, false;
      directory, custody, custodyNext, files, sent, lastSeen := false, None, None, map[], [], None;
      refused, looked := false, [];
    }

    /** No run has begun. */
    ghost predicate Untouched()
      reads this
    {
      !directory && custody.None? && custodyNext.None? && files == map[]
    }

    /** Different contents have different hashes. */
    ghost predicate CollisionFree() {
      forall a, b :: sha(a) == sha(b) ==> a == b
    }

    // ---- what holds at every moment ----

    /** Intent is durable before its effect, and recorded retirement is real. */
    ghost predicate ProviderInv()
      reads this
    {
      && (key == Ours ==> custody.Some?)
      && (policy == Ours ==> custody.Some? && custody.value.policyCreated)
      && (minted ==> custody.Some? && custody.value.mintState != NotDispatched)
      && (tokenLive ==> minted)
      && (custody.Some? ==>
            var j := custody.value;
            && directory && j.identity == identity
            && key != Foreign && policy != Foreign
            && (j.mintState != NotDispatched && !j.tokenRevoked ==> policy == Ours)
            && (j.mintState == Observed ==> j.accessor == Some(accessor) && j.tokenSha == Some(sha(secret)))
            && (j.tokenRevoked ==> !tokenLive && j.mintState == Observed && refused)
            && (j.policyDeleted ==> policy == Nobody && j.tokenRevoked))
    }

    /** Each private file is announced by the journal, and holds a part of its content until it is cleared. */
    ghost predicate FilesInv()
      reads this
    {
      && (custody.None? ==> files.Keys <= {RuntimeBefore})
      && (custody.Some? ==>
            var j := custody.value;
            && (j.mintState == Observed ==> j.mintSha.Some?)
            && (j.mintSha.Some? ==>
                  MintResponse in files && (j.mintSha == Some(sha(files[MintResponse])) || j.policyDeleted))
            && (TokenFile in files ==> j.mintState == Observed && (files[TokenFile] <= secret || j.policyDeleted))
            && (Environment in files ==>
                  j.environmentSha == Some(sha(environment)) && j.mintState == Observed
                  && (files[Environment] <= environment || j.policyDeleted))
            && (RetiredEnvironment in files ==> j.policyDeleted && files[RetiredEnvironment] <= retired)
            && (ResultFile in files ==>
                  && j.policyCreated && j.mintState == Observed && j.environmentSha == Some(sha(environment))
                  && TokenFile in files && Environment in files
                  && (j.policyDeleted || (files[TokenFile] == secret && files[Environment] == environment))
                  && RuntimeBefore in files && RuntimeAfter in files && files[RuntimeBefore] == files[RuntimeAfter])
            && (RevokedFile in files ==>
                  && j.tokenRevoked && j.policyDeleted
                  && (forall f :: f in files && f in {TokenFile, Environment, MintResponse} ==> Cleared(files[f]))))
    }

    ghost predicate Inv()
      reads this
    {
      && ProviderInv() && FilesInv()
      && WellSent(sent) && (custody.None? ==> sent == [])
    }

    // ---- steps on the disk ----

    /** Exclusive creation of a file whose writing stops where `stop` says. */
    method DurableNewUntil(f: FileName, data: Bytes, stop: Stop) returns (r: Outcome)
      modifies `files
      ensures r.Pass? <==> f !in old(files) && stop.Never?
      ensures files ==
              if f in old(files) || stop.BeforeCreation? then old(files)
              else if stop.Never? then old(files)[f := data]
              else old(files)[f := data[..Min(stop.written, |data|)]]
    {
      if f in files || stop.BeforeCreation? {
        return Failed;
      }
      if stop.After? {
        files := files[f := data[..Min(stop.written, |data|)]];
        return Failed;
      }
      files := files[f := data];
      return Pass;
    }

    /** On failure the file may be left holding any part of the data, if it was absent. */
    method DurableNew(f: FileName, data: Bytes) returns (r: Outcome)
      modifies `files
      ensures r.Pass? ==> f !in old(files) && files == old(files)[f := data]
      ensures r.Failed? ==>
                || files == old(files)
                || (f !in old(files) && exists k :: 0 <= k <= |data| && files == old(files)[f := data[..k]])
      ensures fortune.Smooth? && f !in old(files) ==>
                if f == TokenFile && fortune.crash.Some?
                then r.Failed? && files == old(files)[f := data[..Min(fortune.crash.value, |data|)]]
                else r.Pass?
    {
      var written: nat, created: bool, complete: bool := *, *, *;
      var stop := if complete then Never else if created then After(written) else BeforeCreation;
      if fortune.Smooth? {
        stop := if f == TokenFile && fortune.crash.Some? then After(fortune.crash.value) else Never;
      }
      r := DurableNewUntil(f, data, stop);
      assert stop.After? ==> 0 <= Min(stop.written, |data|) <= |data|;
    }

    /** The rename replaces the journal at once, and a stale next file blocks every later update. */
    method UpdateJournal(known: Option<Journal>, journal: Journal) returns (r: Outcome)
      modifies `custody, `custodyNext
      ensures custody == old(custody) || custody == Some(journal)
      ensures r.Pass? ==> old(custody) == known && custody == Some(journal) && custodyNext.None?
      ensures fortune.Smooth? && old(custody) == known && old(custodyNext).None? ==> r.Pass?
    {
      if custody.Some? && custody != known {
        return Failed;
      }
      if custodyNext.Some? || (custody.None? && known.Some?) {
        return Failed;
      }
      var torn: bool := *;
      if torn && fortune.Whatever? {
        custodyNext := Some([]);
        return Failed;
      }
      custody := Some(journal);
      custodyNext := None;
      var crashed: bool := *;
      return if crashed && fortune.Whatever? then Failed else Pass;
    }

    /** Overwrites a secret file with zeros; on failure some front of it has been overwritten. */
    method ClearFile(f: FileName) returns (r: Outcome)
      modifies `files
      ensures f in old(files) ==>
                exists k :: 0 <= k <= |old(files[f])| && files == old(files)[f := AsciiZeros(k) + old(files[f])[k..]]
      ensures f !in old(files) ==> r.Failed? && files == old(files)
      ensures r.Pass? ==> files == old(files)[f := AsciiZeros(|old(files[f])|)]
      ensures fortune.Smooth? && f in old(files) ==> r.Pass?
    {
      if f !in files {
        return Failed;
      }
      var old_ := files[f];
      var written: nat, interrupted: bool := *, *;
      if (written < |old_| || interrupted) && fortune.Whatever? {
        var k := Min(written, |old_|);
        files := files[f := AsciiZeros(k) + old_[k..]];
        return Failed;
      }
      files := files[f := AsciiZeros(|old_|)];
      assert AsciiZeros(|old_|) + old_[|old_|..] == AsciiZeros(|old_|);
      return Pass;
    }

    // ---- steps at the provider: effects and replies are independent unless an observation says otherwise ----

    /** Whether a request was answered with success. */
    method Answer() returns (r: Outcome)
      modifies `tokenLive
      ensures tokenLive ==> old(tokenLive)
      ensures fortune.Smooth? ==> r.Pass?
    {
      Expire();
      var passed: bool := *;
      return if passed || fortune.Smooth? then Pass else Failed;
    }

    /** Anything that only looks. */
    method Check(look: Look) returns (r: Outcome)
      modifies `tokenLive, `looked
      ensures tokenLive ==> old(tokenLive)
      ensures looked == old(looked) + if r.Pass? then [look] else []
      ensures fortune.Smooth? ==> r.Pass?
    {
      r := Answer();
      looked := looked + if r.Pass? then [look] else [];
    }

    /** A token may expire at any time. */
    method Expire()
      modifies `tokenLive
      ensures tokenLive ==> old(tokenLive)
    {
      var expired: bool := *;
      if expired {
        tokenLive := false;
      }
    }

    /** The runtime guard's observation. */
    method Guard() returns (r: Option<Bytes>)
      modifies `tokenLive, `lastSeen
      ensures (tokenLive ==> old(tokenLive)) && lastSeen == r
      ensures fortune.Smooth? ==> r == Some([])
    {
      Expire();
      r := *;
      if fortune.Smooth? {
        r := Some([]);
      }
      lastSeen := r;
    }

    /** A 404 without data is given only for what is absent. */
    method RequireKeyAbsent() returns (r: Outcome)
      modifies `tokenLive, `looked
      ensures tokenLive ==> old(tokenLive)
      ensures r.Pass? ==> key == Nobody && looked == old(looked) + [KeyAbsent]
      ensures fortune.Smooth? && key == Nobody ==> r.Pass?
    {
      if key != Nobody {
        Expire();
        return Failed;
      }
      r := Check(KeyAbsent);
    }

    method RequirePolicyAbsent() returns (r: Outcome)
      modifies `tokenLive, `looked
      ensures tokenLive ==> old(tokenLive)
      ensures r.Pass? ==> policy == Nobody && looked == old(looked) + [PolicyAbsent]
      ensures fortune.Smooth? && policy == Nobody ==> r.Pass?
    {
      if policy != Nobody {
        Expire();
        return Failed;
      }
      r := Check(PolicyAbsent);
    }

    /** The cluster is the expected one, and neither a key nor a policy of ours stands there. */
    method RequireFree() returns (r: Outcome)
      modifies `tokenLive, `looked
      ensures tokenLive ==> old(tokenLive)
      ensures r.Pass? ==> key == policy == Nobody && looked == old(looked) + [Cluster, KeyAbsent, PolicyAbsent]
      ensures fortune.Smooth? && key == policy == Nobody ==> r.Pass?
    {
      r := Check(Cluster);
      if r.Failed? {
        return;
      }
      r := RequireKeyAbsent();
      if r.Failed? {
        return;
      }
      r := RequirePolicyAbsent();
    }

    method PostKey() returns (r: Outcome)
      requires custody.Some? && Announces(custody.value, KeyCreate) && WellSent(sent) && NeverSent(sent, KeyCreate)
      modifies `sent, `key, `tokenLive
      ensures tokenLive ==> old(tokenLive)
      ensures key == old(key) || (old(key) == Nobody && key == Ours)
      ensures sent == old(sent) + [Request(KeyCreate, custody.value)] && WellSent(sent)
      ensures fortune.Smooth? ==> r.Pass? && key != Nobody
    {
      SendOne(sent, Request(KeyCreate, custody.value));
      sent := sent + [Request(KeyCreate, custody.value)];
      var effect: bool := *;
      if (effect || fortune.Smooth?) && key == Nobody {
        key := Ours;
      }
      r := Answer();
    }

    /** Metadata is given only for a key that exists. */
    method RequireKey() returns (r: Outcome)
      modifies `tokenLive, `looked
      ensures tokenLive ==> old(tokenLive)
      ensures r.Pass? ==> key != Nobody && looked == old(looked) + [KeyMetadata]
      ensures fortune.Smooth? && key != Nobody ==> r.Pass?
    {
      if key == Nobody {
        Expire();
        return Failed;
      }
      r := Check(KeyMetadata);
    }

    /** A successful write status means the policy is in place. */
    method PutPolicy() returns (r: Outcome)
      requires custody.Some? && Announces(custody.value, PolicyWrite) && WellSent(sent) && NeverSent(sent, PolicyWrite)
      modifies `sent, `policy, `tokenLive
      ensures tokenLive ==> old(tokenLive)
      ensures policy == old(policy) || policy == Ours
      ensures r.Pass? ==> policy == Ours
      ensures sent == old(sent) + [Request(PolicyWrite, custody.value)] && WellSent(sent)
      ensures fortune.Smooth? ==> r.Pass?
    {
      SendOne(sent, Request(PolicyWrite, custody.value));
      sent := sent + [Request(PolicyWrite, custody.value)];
      var effect: bool := *;
      if effect || fortune.Smooth? {
        policy := Ours;
      }
      r := Answer();
      if policy != Ours {
        r := Failed;
      }
    }

    /** A success reply that carries a token carries the token just minted; a lost reply may leave one minted. */
    method Mint() returns (reply: Option<MintReply>)
      requires custody.Some? && Announces(custody.value, TokenMint) && WellSent(sent) && NeverSent(sent, TokenMint)
      modifies `sent, `minted, `tokenLive
      ensures old(minted) ==> minted
      ensures tokenLive ==> minted
      ensures reply.Some? && reply.value.status in {200, 201} && reply.value.token.Some? ==>
                minted && reply.value.token == Some(secret) && reply.value.accessor == Some(accessor)
      ensures sent == old(sent) + [Request(TokenMint, custody.value)] && WellSent(sent)
      ensures fortune.Smooth? ==> reply == Some(MintReply(200, Some(secret), Some(accessor)))
    {
      SendOne(sent, Request(TokenMint, custody.value));
      sent := sent + [Request(TokenMint, custody.value)];
      var effect: bool := *;
      if effect || fortune.Smooth? {
        minted, tokenLive := true, true;
      } else if !minted {
        tokenLive := false;
      }
      Expire();
      reply := *;
      if fortune.Smooth? {
        reply := Some(MintReply(200, Some(secret), Some(accessor)));
      }
      if reply.Some? && reply.value.status in {200, 201} && reply.value.token.Some? {
        reply := if minted then Some(MintReply(reply.value.status, Some(secret), Some(accessor))) else None;
      }
    }

    /** Revocation may or may not take effect, whatever the reply says. */
    method PostRevoke() returns (r: Outcome)
      requires custody.Some? && Announces(custody.value, TokenRevoke) && WellSent(sent)
      modifies `sent, `tokenLive
      ensures tokenLive ==> old(tokenLive)
      ensures sent == old(sent) + [Request(TokenRevoke, custody.value)] && WellSent(sent)
      ensures fortune.Smooth? ==> r.Pass? && !tokenLive
    {
      SendOne(sent, Request(TokenRevoke, custody.value));
      sent := sent + [Request(TokenRevoke, custody.value)];
      r := Answer();
      if fortune.Smooth? {
        tokenLive := false;
      }
    }

    /** A 403 is never the answer to a live token that a policy lets read. */
    method ReadWithToken(token: Bytes) returns (status: int)
      modifies `tokenLive, `refused
      ensures tokenLive ==> old(tokenLive)
      ensures status == 403 && token == secret && policy == Ours ==> !tokenLive
      ensures refused <==> old(refused) || (status == 403 && token == secret && policy == Ours)
      ensures fortune.Smooth? && !old(tokenLive) ==> status == 403
    {
      Expire();
      status := *;
      if fortune.Smooth? {
        status := if tokenLive then 200 else 403;
      }
      if token == secret && policy == Ours && tokenLive && status == 403 {
        status := 200;
      }
      refused := refused || (status == 403 && token == secret && policy == Ours);
    }

    method DeletePolicy() returns (r: Outcome)
      requires custody.Some? && Announces(custody.value, PolicyDelete) && WellSent(sent)
      modifies `sent, `policy, `tokenLive
      ensures tokenLive ==> old(tokenLive)
      ensures policy == old(policy) || policy == Nobody
      ensures sent == old(sent) + [Request(PolicyDelete, custody.value)] && WellSent(sent)
      ensures fortune.Smooth? ==> r.Pass? && policy == Nobody
    {
      SendOne(sent, Request(PolicyDelete, custody.value));
      sent := sent + [Request(PolicyDelete, custody.value)];
      var effect: bool := *;
      if effect || fortune.Smooth? {
        policy := Nobody;
      }
      r := Answer();
    }

    // ---- provision ----

    method CreateKey(d02: bool, j: Journal) returns (r: Outcome, j': Journal)
      requires Inv() && custody == Some(j) && j.mintState == NotDispatched && sent == []
      modifies `custody, `custodyNext, `sent, `key, `tokenLive, `looked
      ensures Inv() && Forward(old(custody), custody)
      ensures r.Pass? ==> custody == Some(j') && j' == j.(pending := KeyCreate) && sent == [Request(KeyCreate, j')]
      ensures r.Pass? ==> key == Ours && looked == old(looked) + [KeyMetadata] + if d02 then [UnpublishedAbsent] else []
      ensures fortune.Smooth? && old(custodyNext).None? ==> r.Pass? && custodyNext.None?
    {
      j' := j.(pending := KeyCreate);
      :- UpdateJournal(Some(j), j');
      :- PostKey();
      :- RequireKey();
      if d02 {
        :- Check(UnpublishedAbsent);
      }
      return Pass, j';
    }

    method WritePolicy(j: Journal) returns (r: Outcome, j': Journal)
      requires Inv() && custody == Some(j) && j.mintState == NotDispatched && !j.tokenRevoked && !j.policyDeleted
      requires NeverSent(sent, PolicyWrite)
      modifies `custody, `custodyNext, `sent, `policy, `tokenLive
      ensures Inv() && Forward(old(custody), custody) && old(sent) <= sent
      ensures r.Pass? ==>
                custody == Some(j') && j' == j.(pending := PolicyWrite, policyCreated := true) && policy == Ours
      ensures r.Pass? ==> sent == old(sent) + [Request(PolicyWrite, j')]
      ensures fortune.Smooth? && old(custodyNext).None? ==> r.Pass? && custodyNext.None?
    {
      j' := j.(pending := PolicyWrite, policyCreated := true);
      :- UpdateJournal(Some(j), j');
      :- PutPolicy();
      return Pass, j';
    }

    /** The mint is announced as unknown before it is sent, and its response is durable before it is looked at. */
    method RequestMint(j: Journal) returns (r: Outcome, j': Journal, reply: MintReply)
      requires Inv() && custody == Some(j) && j.mintState == NotDispatched && j.policyCreated && policy == Ours
      requires !j.tokenRevoked && !j.policyDeleted && j.environmentSha.None? && j.mintSha.None?
      requires NeverSent(sent, TokenMint)
      modifies `custody, `custodyNext, `files, `sent, `minted, `tokenLive
      ensures Inv() && Forward(old(custody), custody) && old(sent) <= sent
      ensures files.Keys <= old(files).Keys + {MintResponse}
      ensures forall f :: f in old(files) && f != MintResponse ==> f in files && files[f] == old(files)[f]
      ensures r.Pass? ==>
                && custody == Some(j') && j' == j.(pending := TokenMint, mintState := UnknownUntilObserved)
                && sent == old(sent) + [Request(TokenMint, j')]
                && MintResponse in files && files[MintResponse] == encodeMint(reply)
                && (reply.status in {200, 201} && reply.token.Some? ==>
                      minted && reply.token == Some(secret) && reply.accessor == Some(accessor))
      ensures fortune.Smooth? && old(custodyNext).None? && MintResponse !in old(files) ==>
                r.Pass? && custodyNext.None? && reply == MintReply(200, Some(secret), Some(accessor))
    {
      j', reply := j.(pending := TokenMint, mintState := UnknownUntilObserved), MintReply(0, None, None);
      :- UpdateJournal(Some(j), j');
      var answer := Mint();
      if answer.None? {
        return Failed, j', reply;
      }
      reply := answer.value;
      :- DurableNew(MintResponse, encodeMint(reply));
      return Pass, j', reply;
    }

    /** None of the files that come after the token is there. */
    ghost predicate Unpublished()
      reads this
    {
      RuntimeAfter !in files && GrantLookup !in files && Environment !in files && ResultFile !in files
    }

    /** The crash has left a front part of the token file. */
    ghost predicate Torn()
      reads this
    {
      && fortune.Smooth? && fortune.crash.Some?
      && custody.Some? && custody.value.mintState.Observed? && !custody.value.policyDeleted
      && TokenFile in files && files[TokenFile] == secret[..Min(fortune.crash.value, |secret|)]
    }

    /** A token has been minted and its file and the environment, if there, are whole; nothing has been retired. */
    ghost predicate Retirable()
      reads this
    {
      && custodyNext.None? && custody.Some? && custody.value.mintState.Observed? && !custody.value.policyDeleted
      && TokenFile in files && files[TokenFile] == secret
      && (Environment in files ==> files[Environment] == environment)
    }

    /** Token and accessor are durable before anything uses them. */
    method MintToken(j: Journal) returns (r: Outcome, j': Journal)
      requires Inv() && custody == Some(j) && j.mintState == NotDispatched && j.policyCreated && policy == Ours
      requires !j.tokenRevoked && !j.policyDeleted && j.environmentSha.None? && j.mintSha.None?
      requires NeverSent(sent, TokenMint)
      modifies `custody, `custodyNext, `files, `sent, `minted, `tokenLive
      ensures Inv() && Forward(old(custody), custody) && old(sent) <= sent
      ensures r.Pass? ==> |sent| == |old(sent)| + 1 && sent[|old(sent)|].kind == TokenMint
      ensures files.Keys <= old(files).Keys + {MintResponse, TokenFile}
      ensures forall f :: f in old(files) && f !in {MintResponse, TokenFile} ==> f in files && files[f] == old(files)[f]
      ensures old(Unpublished()) ==> Unpublished()
      ensures r.Pass? ==>
                && custody == Some(j') && j'.mintState == Observed && !j'.tokenRevoked
                && !j'.policyDeleted && j'.policyCreated
                && j'.environmentSha.None? && minted && TokenFile in files && files[TokenFile] == secret
      ensures fortune.Smooth? && old(custodyNext).None? && Usable(MintReply(200, Some(secret), Some(accessor)))
              && MintResponse !in old(files) && TokenFile !in old(files) ==>
                if fortune.crash.Some? then r.Failed? && Torn() else r.Pass? && custodyNext.None?
    {
      var reply;
      r, j', reply := RequestMint(j);
      if r.Failed? {
        return;
      }
      r, j' := ObserveMint(j', reply, encodeMint(reply));
    }

    method ObserveMint(j: Journal, reply: MintReply, response: Bytes) returns (r: Outcome, j': Journal)
      requires Inv() && custody == Some(j) && j.mintState == UnknownUntilObserved && j.policyCreated && j.mintSha.None?
      requires !j.tokenRevoked && !j.policyDeleted && j.environmentSha.None?
      requires reply.status in {200, 201} && reply.token.Some? ==>
                 minted && reply.token == Some(secret) && reply.accessor == Some(accessor)
      requires MintResponse in files && files[MintResponse] == response
      modifies `custody, `custodyNext, `files
      ensures Inv() && Forward(old(custody), custody)
      ensures files.Keys <= old(files).Keys + {TokenFile}
      ensures forall f :: f in old(files) && f != TokenFile ==> f in files && files[f] == old(files)[f]
      ensures r.Pass? ==>
                && custody == Some(j') && j'.mintState == Observed && !j'.tokenRevoked
                && !j'.policyDeleted && j'.policyCreated
                && j'.environmentSha.None? && minted && TokenFile in files && files[TokenFile] == secret
      ensures r.Pass? ==>
                && reply.status in {200, 201} && reply.token == Some(secret) && 16 <= |secret| <= 4096
                && reply.accessor == Some(accessor) && 8 <= |accessor| <= 4096
                && forall c :: c in secret + accessor ==> c < 128 && c != 0 && c != 10 && c != 13
      ensures fortune.Smooth? && old(custodyNext).None? && Usable(reply) && TokenFile !in old(files) ==>
                if fortune.crash.Some? then r.Failed? && Torn() else r.Pass? && custodyNext.None?
    {
      j' := j.(mintSha := Some(sha(response)));
      :- UpdateJournal(Some(j), j');
      if !Usable(reply) {
        return Failed, j';
      }
      var token := reply.token.value;
      var known := j';
      j' := j'.(accessor := reply.accessor, mintState := Observed, tokenSha := Some(sha(token)));
      :- UpdateJournal(Some(known), j');
      :- DurableNew(TokenFile, token);
      return Pass, j';
    }

    /** What the token is good for. */
    method VerifyScope(d02: bool) returns (r: Outcome)
      modifies `tokenLive, `looked
      ensures tokenLive ==> old(tokenLive)
      ensures r.Pass? ==> looked == old(looked) + LooksAtScope(d02)
      ensures fortune.Smooth? ==> r.Pass?
    {
      r := Check(MintScope);
      if r.Failed? {
        return;
      }
      :- Check(Capabilities);
      if d02 {
        :- Check(ScopedKey);
        :- Check(ScopedAbsent);
      }
    }

    /** The checks after the mint: capabilities, scoped reads and an unchanged runtime. */
    method VerifyRuntime(d02: bool, before: Bytes, j: Journal) returns (r: Outcome)
      requires Inv() && custody == Some(j) && j.mintState == Observed
      requires !j.tokenRevoked && RuntimeBefore in files && files[RuntimeBefore] == before
      modifies `files, `lastSeen, `tokenLive, `looked
      ensures Inv()
      ensures forall f :: f in old(files) && f != RuntimeAfter ==> f in files && files[f] == old(files)[f]
      ensures r.Pass? ==> RuntimeAfter in files && files[RuntimeAfter] == before && lastSeen == Some(before)
      ensures r.Pass? ==> looked == old(looked) + LooksAtScope(d02)
      ensures files.Keys <= old(files).Keys + {RuntimeAfter}
      ensures fortune.Smooth? && before == [] && RuntimeAfter !in old(files) ==> r.Pass?
    {
      r := VerifyScope(d02);
      if r.Failed? {
        return;
      }
      r := CompareRuntime(before, j);
    }

    /** The runtime must look as it did before anything was created. */
    method CompareRuntime(before: Bytes, j: Journal) returns (r: Outcome)
      requires Inv() && custody == Some(j)
      modifies `files, `lastSeen, `tokenLive
      ensures Inv()
      ensures forall f :: f in old(files) && f != RuntimeAfter ==> f in files && files[f] == old(files)[f]
      ensures r.Pass? ==> RuntimeAfter in files && files[RuntimeAfter] == before && lastSeen == Some(before)
      ensures files.Keys <= old(files).Keys + {RuntimeAfter}
      ensures fortune.Smooth? && before == [] && RuntimeAfter !in old(files) ==> r.Pass?
    {
      var after := Guard();
      if after.None? || after.value != before {
        return Failed;
      }
      r := DurableNew(RuntimeAfter, after.value);
    }

    /** The lookup of the grant, recorded before it is judged. */
    method ObserveGrant(j: Journal) returns (r: Outcome)
      requires Inv() && custody == Some(j) && !j.tokenRevoked
      modifies `files, `tokenLive, `looked
      ensures Inv()
      ensures forall f :: f in old(files) && f != GrantLookup ==> f in files && files[f] == old(files)[f]
      ensures r.Pass? ==> GrantLookup in files && looked == old(looked) + [GrantReady]
      ensures files.Keys <= old(files).Keys + {GrantLookup}
      ensures fortune.Smooth? && GrantLookup !in old(files) ==> r.Pass?
    {
      var lookup: Bytes := *;
      Expire();
      :- DurableNew(GrantLookup, lookup);
      r := Check(GrantReady);
    }

    /** The environment's hash is durable before the environment. */
    method PublishEnvironment(j: Journal) returns (r: Outcome, j': Journal)
      requires Inv() && custody == Some(j) && j.mintState == Observed && j.policyCreated && j.environmentSha.None?
      requires !j.tokenRevoked && TokenFile in files && files[TokenFile] == secret
      modifies `custody, `custodyNext, `files
      ensures Inv() && Forward(old(custody), custody)
      ensures files.Keys <= old(files).Keys + {Environment}
      ensures forall f :: f in old(files) && f != Environment ==> f in files && files[f] == old(files)[f]
      ensures r.Pass? ==>
                && j' == j.(pending := Idle, environmentSha := Some(sha(environment)))
                && custody == Some(j') && Environment in files && files[Environment] == environment
      ensures fortune.Smooth? && old(custodyNext).None? && Environment !in old(files) ==> r.Pass? && custodyNext.None?
    {
      j' := j.(pending := Idle, environmentSha := Some(sha(environment)));
      :- UpdateJournal(Some(j), j');
      :- DurableNew(Environment, environment);
      return Pass, j';
    }

    /** The result comes last. */
    method PublishResult(j: Journal) returns (r: Outcome)
      requires Inv() && custody == Some(j) && j.mintState == Observed && j.policyCreated && !j.tokenRevoked
      requires j.environmentSha == Some(sha(environment)) && TokenFile in files && Environment in files
      requires RuntimeBefore in files && RuntimeAfter in files && files[RuntimeBefore] == files[RuntimeAfter]
      requires files[TokenFile] == secret && files[Environment] == environment
      modifies `files
      ensures Inv()
      ensures forall f :: f in old(files) && f != ResultFile ==> f in files && files[f] == old(files)[f]
      ensures r.Pass? ==> ResultFile in files
      ensures fortune.Smooth? && ResultFile !in old(files) ==> r.Pass?
    {
      var receipt: Bytes := *;
      r := DurableNew(ResultFile, receipt);
    }

    /** Everything up to the first journal, which exists before anything of ours does. */
    method Prepare() returns (r: Outcome, before: Bytes, j: Journal)
      requires Inv()
      modifies `directory, `custody, `custodyNext, `files, `lastSeen, `tokenLive, `looked
      ensures Inv() && Forward(old(custody), custody)
      ensures old(directory) ==> r.Failed? && custody == old(custody) && files == old(files)
      ensures r.Pass? ==>
                && j == Journal(identity, false, None, NotDispatched, None, None, None, false, false, Idle)
                && custody == Some(j) && RuntimeBefore in files && files[RuntimeBefore] == before
                && lastSeen == Some(before) && sent == []
                && looked == old(looked) + [Cluster, KeyAbsent, PolicyAbsent]
      ensures fortune.Smooth? && old(Untouched()) && old(key) == old(policy) == Nobody ==>
                r.Pass? && custodyNext.None? && files.Keys == {RuntimeBefore} && before == []
    {
      before, j := [], Journal(identity, false, None, NotDispatched, None, None, None, false, false, Idle);
      if directory {
        return Failed, before, j;
      }
      directory := true;
      var observed := Guard();
      if observed.None? {
        return Failed, before, j;
      }
      before := observed.value;
      :- DurableNew(RuntimeBefore, before);
      :- RequireFree();
      :- UpdateJournal(None, j);
      return Pass, before, j;
    }

    /** From equal observations to the published result. */
    method PublishFiles(j: Journal) returns (r: Outcome)
      requires Inv() && custody == Some(j) && j.mintState == Observed && j.policyCreated && j.environmentSha.None?
      requires !j.tokenRevoked && !j.policyDeleted && TokenFile in files && files[TokenFile] == secret
      requires RuntimeBefore in files && RuntimeAfter in files && files[RuntimeBefore] == files[RuntimeAfter]
      modifies `custody, `custodyNext, `files, `tokenLive, `looked
      ensures Inv() && Forward(old(custody), custody)
      ensures r.Pass? ==> ResultFile in files && files[TokenFile] == secret && files[Environment] == environment
      ensures r.Pass? ==> looked == old(looked) + [GrantReady]
      ensures fortune.Smooth? && old(custodyNext).None? && GrantLookup !in old(files) && Environment !in old(files)
              && ResultFile !in old(files) ==>
                r.Pass? && Retirable()
    {
      r := ObserveGrant(j);
      if r.Failed? {
        return;
      }
      r := PublishBoth(j);
    }

    /** The environment, then the result. */
    method PublishBoth(j: Journal) returns (r: Outcome)
      requires Inv() && custody == Some(j) && j.mintState == Observed && j.policyCreated && j.environmentSha.None?
      requires !j.tokenRevoked && !j.policyDeleted && TokenFile in files && files[TokenFile] == secret
      requires RuntimeBefore in files && RuntimeAfter in files && files[RuntimeBefore] == files[RuntimeAfter]
      modifies `custody, `custodyNext, `files
      ensures Inv() && Forward(old(custody), custody)
      ensures r.Pass? ==> ResultFile in files && files[TokenFile] == secret && files[Environment] == environment
      ensures fortune.Smooth? && old(custodyNext).None? && Environment !in old(files) && ResultFile !in old(files) ==>
                r.Pass? && Retirable()
    {
      var j' :- PublishEnvironment(j);
      r := PublishResult(j');
    }

    /** What is looked at, in this order, before the token is minted and after. */
    static function LooksBeforeMint(d02: bool): seq<Look> {
      [Cluster, KeyAbsent, PolicyAbsent, KeyMetadata] + if d02 then [UnpublishedAbsent] else []
    }

    static function LooksAtScope(d02: bool): seq<Look> {
      [MintScope, Capabilities] + if d02 then [ScopedKey, ScopedAbsent] else []
    }

    static function LooksAfterMint(d02: bool): seq<Look> {
      LooksAtScope(d02) + [GrantReady]
    }

    /** The last phase: from a durable token to the published result. */
    method Publish(d02: bool, before: Bytes, j: Journal) returns (r: Outcome)
      requires Inv() && custody == Some(j) && j.mintState == Observed && j.policyCreated && j.environmentSha.None?
      requires !j.tokenRevoked && !j.policyDeleted && TokenFile in files && files[TokenFile] == secret
      requires RuntimeBefore in files && files[RuntimeBefore] == before
      modifies `custody, `custodyNext, `files, `lastSeen, `tokenLive, `looked
      ensures Inv() && Forward(old(custody), custody)
      ensures r.Pass? ==> ResultFile in files && files[TokenFile] == secret && files[Environment] == environment
      ensures r.Pass? ==> lastSeen == Some(before) && looked == old(looked) + LooksAfterMint(d02)
      ensures fortune.Smooth? && old(custodyNext).None? && before == [] && old(Unpublished()) ==>
                r.Pass? && Retirable()
    {
      r := VerifyRuntime(d02, before, j);
      if r.Failed? {
        return;
      }
      Associates(old(looked), LooksAtScope(d02), [GrantReady]);
      r := PublishFiles(j);
    }

    /** The key and the policy, each announced before it is requested. */
    method Establish(d02: bool) returns (r: Outcome, before: Bytes, j: Journal)
      requires Inv()
      modifies `directory, `custody, `custodyNext, `files, `lastSeen, `sent, `key, `policy, `tokenLive, `looked
      ensures Inv() && Forward(old(custody), custody) && old(sent) <= sent
      ensures old(directory) ==> r.Failed? && custody == old(custody) && files == old(files) && sent == old(sent)
      ensures r.Pass? ==>
                && custody == Some(j) && key == policy == Ours && j.policyCreated && j.mintState == NotDispatched
                && !j.tokenRevoked && !j.policyDeleted && j.environmentSha.None? && j.mintSha.None?
                && |sent| == 2 && sent[0].kind == KeyCreate && sent[1].kind == PolicyWrite
                && RuntimeBefore in files && files[RuntimeBefore] == before
                && looked == old(looked) + LooksBeforeMint(d02)
      ensures fortune.Smooth? && old(Untouched()) && old(key) == old(policy) == Nobody ==>
                && r.Pass? && custodyNext.None? && before == []
                && MintResponse !in files && TokenFile !in files && Unpublished()
    {
      r, before, j := Prepare();
      if r.Failed? {
        return;
      }
      j :- CreateKey(d02, j);
      j :- WritePolicy(j);
      return Pass, before, j;
    }

    /** Provisions at most once per directory; nothing is retried. */
    method Provision(d02: bool) returns (r: Outcome)
      requires Inv()
      modifies this
      ensures Inv() && Forward(old(custody), custody) && old(sent) <= sent
      ensures r.Pass? ==> ResultFile in files && files[TokenFile] == secret && files[Environment] == environment
      ensures r.Pass? ==> key == policy == Ours && minted
      ensures old(directory) ==> r.Failed? && custody == old(custody) && files == old(files) && sent == old(sent)
      ensures r.Pass? ==>
                |sent| == 3 && sent[0].kind == KeyCreate && sent[1].kind == PolicyWrite && sent[2].kind == TokenMint
      ensures r.Pass? ==> looked == old(looked) + LooksBeforeMint(d02) + LooksAfterMint(d02)
      ensures fortune.Smooth? && old(Untouched()) && old(key) == old(policy) == Nobody
              && Usable(MintReply(200, Some(secret), Some(accessor))) ==>
                if fortune.crash.Some? then r.Failed? && Torn() else r.Pass? && Retirable()
    {
      var before, j :- Establish(d02);
      j :- MintToken(j);
      r := Publish(d02, before, j);
    }

    // ---- revoke ----

    /** The checks before anything is touched; they recover the very token that was minted. */
    method Reclaim(runIdentity: nat) returns (r: Outcome, j: Journal, token: Bytes, before: Bytes)
      requires Inv() && CollisionFree()
      modifies `lastSeen, `tokenLive, `looked
      ensures Inv()
      ensures r.Pass? ==>
                && custody == Some(j) && j.mintState == Observed && j.identity == runIdentity
                && token == secret && RevokedFile !in files && lastSeen == Some(before)
                && MintResponse in files && j.mintSha == Some(sha(files[MintResponse]))
                && (TokenFile in files ==> files[TokenFile] == secret)
                && (Environment in files ==> files[Environment] == environment)
                && looked == old(looked) + [Cluster]
      ensures fortune.Smooth? && Retirable() && custody.value.identity == runIdentity ==> r.Pass? && before == []
    {
      token, before := [], [];
      j := Journal(identity, false, None, NotDispatched, None, None, None, false, false, Idle);
      if custody.None? || custody.value.identity != runIdentity || RevokedFile in files {
        return Failed, j, token, before;
      }
      j := custody.value;
      var observed := Guard();
      if observed.None? {
        return Failed, j, token, before;
      }
      before := observed.value;
      :- Check(Cluster);
      if j.accessor.None? || j.mintState != Observed || MintResponse !in files
          || Some(sha(files[MintResponse])) != j.mintSha {
        return Failed, j, token, before;
      }
      var found := if TokenFile in files then Some(files[TokenFile]) else tokenOf(files[MintResponse]);
      if found.None? || Some(sha(found.value)) != j.tokenSha {
        return Failed, j, token, before;
      }
      token := found.value;
      if Environment in files && Some(sha(files[Environment])) != j.environmentSha {
        return Failed, j, token, before;
      }
      return Pass, j, token, before;
    }

    /** Revocation is recorded only after the token itself has been refused while its policy still stands. */
    method RetireToken(j: Journal, token: Bytes) returns (r: Outcome, j': Journal)
      requires Inv() && custody == Some(j) && j.mintState == Observed && token == secret && RevokedFile !in files
      modifies `custody, `custodyNext, `sent, `refused, `tokenLive
      ensures Inv() && Forward(old(custody), custody) && old(sent) <= sent
      ensures r.Pass? ==> custody == Some(j') && j' == j.(tokenRevoked := true, pending := PolicyDelete)
      ensures r.Pass? ==>
                sent == old(sent) + if j.tokenRevoked then [] else [Request(TokenRevoke, j.(pending := TokenRevoke))]
      ensures r.Pass? ==> refused && !tokenLive
      ensures !j.tokenRevoked && custody.Some? && custody.value.tokenRevoked ==> refused && policy == Ours
      ensures fortune.Smooth? && old(custodyNext).None? ==> r.Pass? && custodyNext.None?
    {
      j' := j.(pending := TokenRevoke);
      :- UpdateJournal(Some(j), j');
      if !j'.tokenRevoked {
        :- PostRevoke();
      }
      var status := ReadWithToken(token);
      if status != 403 {
        return Failed, j';
      }
      var known := j';
      j' := j'.(tokenRevoked := true, pending := PolicyDelete);
      :- UpdateJournal(Some(known), j');
      return Pass, j';
    }

    method RetirePolicy(j: Journal) returns (r: Outcome, j': Journal)
      requires Inv() && custody == Some(j) && j.tokenRevoked && j.pending == PolicyDelete && RevokedFile !in files
      modifies `custody, `custodyNext, `sent, `policy, `tokenLive, `looked
      ensures Inv() && Forward(old(custody), custody) && old(sent) <= sent
      ensures r.Pass? ==> custody == Some(j') && j' == j.(policyDeleted := true, pending := Idle)
      ensures r.Pass? ==> sent == old(sent) + if j.policyDeleted then [] else [Request(PolicyDelete, j)]
      ensures r.Pass? ==> looked == old(looked) + [PolicyAbsent]
      ensures fortune.Smooth? && old(custodyNext).None? ==> r.Pass? && custodyNext.None?
    {
      j' := j;
      if !j.policyDeleted {
        :- DeletePolicy();
      }
      :- RequirePolicyAbsent();
      j' := j.(policyDeleted := true, pending := Idle);
      :- UpdateJournal(Some(j), j');
      return Pass, j';
    }

    /** The environment is kept without its token. */
    ghost predicate Kept()
      reads this
    {
      RetiredEnvironment in files && files[RetiredEnvironment] == retired
    }

    /** The environment is kept without its token, then overwritten. */
    method RetireEnvironment(j: Journal) returns (r: Outcome)
      requires Inv() && custody == Some(j) && j.policyDeleted && RevokedFile !in files
      modifies `files
      ensures Inv()
      ensures files.Keys <= old(files).Keys + {RetiredEnvironment}
      ensures forall f :: f in old(files) && f !in {Environment, RetiredEnvironment} ==>
                f in files && files[f] == old(files)[f]
      ensures r.Pass? && Environment in old(files) ==> Environment in files && Cleared(files[Environment]) && Kept()
      ensures fortune.Smooth? && RetiredEnvironment !in old(files)
              && (Environment in old(files) ==> old(files)[Environment] == environment) ==>
                r.Pass?
    {
      if Environment !in files {
        return Pass;
      }
      if Some(sha(files[Environment])) != j.environmentSha {
        return Failed;
      }
      if RetiredEnvironment in files {
        if files[RetiredEnvironment] != retired {
          return Failed;
        }
      } else {
        :- DurableNew(RetiredEnvironment, retired);
      }
      r := ClearFile(Environment);
    }

    /** Overwrites a file whose hash the journal holds. */
    method RetireSecret(f: FileName, expected: Option<nat>, j: Journal) returns (r: Outcome)
      requires Inv() && custody == Some(j) && j.policyDeleted && RevokedFile !in files && f in {TokenFile, MintResponse}
      modifies `files
      ensures Inv() && files.Keys == old(files).Keys
      ensures forall g :: g in old(files) && g != f ==> g in files && files[g] == old(files)[g]
      ensures r.Pass? ==>
                f in files && Cleared(files[f]) && Some(sha(old(files[f]))) == expected
                && |files[f]| == |old(files[f])|
      ensures fortune.Smooth? && f in old(files) && Some(sha(old(files[f]))) == expected ==> r.Pass?
    {
      if f !in files || Some(sha(files[f])) != expected {
        return Failed;
      }
      r := ClearFile(f);
    }

    method RetireSecrets(j: Journal, tokenPresent: bool) returns (r: Outcome)
      requires Inv() && custody == Some(j) && j.policyDeleted && RevokedFile !in files
      modifies `files
      ensures Inv() && files.Keys == old(files).Keys
      ensures forall g :: g in old(files) && g !in {TokenFile, MintResponse} ==> g in files && files[g] == old(files)[g]
      ensures r.Pass? ==>
                && (TokenFile in files ==> Cleared(files[TokenFile]))
                && MintResponse in files && Cleared(files[MintResponse])
      ensures fortune.Smooth? && tokenPresent && TokenFile in old(files) && old(files)[TokenFile] == secret
              && MintResponse in old(files) && j.mintSha == Some(sha(old(files)[MintResponse])) ==>
                r.Pass?
    {
      if tokenPresent {
        :- RetireSecret(TokenFile, j.tokenSha, j);
      } else if TokenFile in files {
        return Failed;
      }
      r := RetireSecret(MintResponse, j.mintSha, j);
    }

    /** The files are as they were minted, and none has been retired. */
    ghost predicate Whole(j: Journal)
      reads this
    {
      && TokenFile in files && files[TokenFile] == secret
      && MintResponse in files && j.mintSha == Some(sha(files[MintResponse]))
      && (Environment in files ==> files[Environment] == environment) && RetiredEnvironment !in files
    }

    method RetireFiles(j: Journal, tokenPresent: bool) returns (r: Outcome)
      requires Inv() && custody == Some(j) && j.tokenRevoked && j.policyDeleted && RevokedFile !in files
      modifies `files
      ensures Inv()
      ensures r.Pass? ==> RevokedFile in files && (Environment in old(files) ==> Kept())
      ensures fortune.Smooth? && tokenPresent && old(Whole(j)) ==> r.Pass?
    {
      r := RetireEnvironment(j);
      if r.Failed? {
        return;
      }
      :- RetireSecrets(j, tokenPresent);
      var proof: Bytes := *;
      r := DurableNew(RevokedFile, proof);
    }

    /** The secret files are cleared only if the runtime still looks as it did before the revoke. */
    method ClearFiles(j: Journal, before: Bytes, tokenPresent: bool) returns (r: Outcome)
      requires Inv() && custody == Some(j) && j.tokenRevoked && j.policyDeleted && RevokedFile !in files
      modifies `files, `lastSeen, `tokenLive
      ensures Inv()
      ensures lastSeen != Some(before) ==> r.Failed? && files == old(files)
      ensures r.Pass? ==> RevokedFile in files && (Environment in old(files) ==> Kept())
      ensures fortune.Smooth? && before == [] && tokenPresent && old(Whole(j)) ==> r.Pass?
    {
      var after := Guard();
      if after != Some(before) {
        return Failed;
      }
      r := RetireFiles(j, tokenPresent);
    }

    /** May be repeated after any failure, and refuses once it has retired everything. */
    method Revoke(runIdentity: nat) returns (r: Outcome)
      requires Inv() && CollisionFree()
      modifies `custody, `custodyNext, `sent, `lastSeen, `refused, `policy, `files, `tokenLive, `looked
      ensures Inv() && Forward(old(custody), custody) && old(sent) <= sent
      ensures r.Pass? ==> RevokedFile in files && !tokenLive && refused && policy == Nobody
      ensures r.Pass? ==> looked == old(looked) + [Cluster, PolicyAbsent] && (Environment in old(files) ==> Kept())
      ensures RevokedFile in old(files) ==>
                r.Failed? && custody == old(custody) && files == old(files) && sent == old(sent)
      ensures TokenFile in old(files) && old(files)[TokenFile] != secret ==>
                r.Failed? && custody == old(custody) && files == old(files) && sent == old(sent)
      ensures fortune.Smooth? && old(Retirable()) && old(custody).value.identity == runIdentity ==> r.Pass?
    {
      var j, token, before :- Reclaim(runIdentity);
      var tokenPresent := TokenFile in files;
      j :- RetireToken(j, token);
      j :- RetirePolicy(j);
      r := ClearFiles(j, before, tokenPresent);
    }
  }

  // ---- what a crash during a write leaves ----

  /** Until secrets are cleared, a token or environment file matches its recorded hash exactly when it is complete. */
  lemma PartialFilesAreSeen(w: World, j: Journal)
    requires w.Inv() && w.CollisionFree() && w.custody == Some(j) && !j.policyDeleted
    ensures TokenFile in w.files ==>
              (j.tokenSha == Some(w.sha(w.files[TokenFile])) <==> |w.files[TokenFile]| == |w.secret|)
    ensures Environment in w.files ==>
              (j.environmentSha == Some(w.sha(w.files[Environment])) <==> |w.files[Environment]| == |w.environment|)
  {
    if TokenFile in w.files {
      assert w.files[TokenFile] == w.secret[..|w.files[TokenFile]|];
      assert w.secret[..|w.secret|] == w.secret;
    }
    if Environment in w.files {
      assert w.files[Environment] == w.environment[..|w.files[Environment]|];
      assert w.environment[..|w.environment|] == w.environment;
    }
  }

  /**
    A first provision in which all goes well, until a crash stops the writing of the token file, ends with a file that
    its recorded hash does not match, and every revoke then stops at it.
  */
  method TornToken(identity: nat, secret: Bytes, accessor: Bytes, environment: Bytes, retired: Bytes, sha: Bytes -> nat,
                   encodeMint: MintReply -> Bytes, tokenOf: Bytes -> Option<Bytes>, d02: bool, written: nat)
    returns (w: World, provisioned: Outcome, revoked: Outcome)
    requires (forall a, b :: sha(a) == sha(b) ==> a == b) && written < |secret|
    requires Usable(MintReply(200, Some(secret), Some(accessor)))
    ensures fresh(w) && w.Inv() && w.CollisionFree() && w.custody.Some? && w.secret == secret
    ensures TokenFile in w.files && w.files[TokenFile] == secret[..written]
    ensures w.custody.value.tokenSha != Some(w.sha(w.files[TokenFile]))
    ensures provisioned.Failed? && revoked.Failed?
  {
    w := new World(identity, secret, accessor, environment, retired, sha, encodeMint, tokenOf, Smooth(Some(written)),
                   Nobody, Nobody);
    provisioned := w.Provision(d02);
    PartialFilesAreSeen(w, w.custody.value);
    revoked := w.Revoke(identity);
  }

  lemma UsableReply(secret: Bytes, accessor: Bytes)
    requires 16 <= |secret| <= 4096 && 8 <= |accessor| <= 4096
    requires forall c :: c in secret + accessor ==> c < 128 && c != 0 && c != 10 && c != 13
    ensures Usable(MintReply(200, Some(secret), Some(accessor)))
  {
    assert forall i :: 0 <= i < |secret| ==> secret[i] in secret + accessor;
    assert forall i :: 0 <= i < |accessor| ==> accessor[i] in secret + accessor;
  }

  /** When nothing fails, a provision and a revoke after it succeed, and leave nothing of ours in use. */
  method FullCycle(identity: nat, secret: Bytes, accessor: Bytes, environment: Bytes, retired: Bytes,
                   sha: Bytes -> nat, encodeMint: MintReply -> Bytes, tokenOf: Bytes -> Option<Bytes>, d02: bool)
    returns (w: World, provisioned: Outcome, revoked: Outcome)
    requires forall a, b :: sha(a) == sha(b) ==> a == b
    requires 16 <= |secret| <= 4096 && 8 <= |accessor| <= 4096
    requires forall c :: c in secret + accessor ==> c < 128 && c != 0 && c != 10 && c != 13
    ensures provisioned.Pass? && revoked.Pass?
    ensures fresh(w) && w.Inv() && w.key == Ours && w.policy == Nobody && !w.tokenLive && RevokedFile in w.files
  {
    UsableReply(secret, accessor);
    w := new World(identity, secret, accessor, environment, retired, sha, encodeMint, tokenOf, Smooth(None),
                   Nobody, Nobody);
    provisioned := w.Provision(d02);
    revoked := w.Revoke(identity);
  }

  // ---- whole histories ----

  /** Any number of provisions and revokes, each failing anywhere, with the token free to expire in between. */
  method Histories(w: World, attempts: nat)
    requires w.Inv() && w.CollisionFree()
    modifies w
    ensures w.Inv() && Forward(old(w.custody), w.custody) && old(w.sent) <= w.sent
  {
    for i := 0 to attempts
      invariant w.Inv() && Forward(old(w.custody), w.custody) && old(w.sent) <= w.sent
    {
      var action: nat, d02: bool, identity: nat := *, *, *;
      var r: Outcome;
      if action == 0 {
        r := w.Provision(d02);
      } else if action == 1 {
        r := w.Revoke(identity);
      } else {
        w.Expire();
      }
    }
  }
}
