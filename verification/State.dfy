/**
 `AppState` of `state.rs`: the shared fields, the identity operations that overwrite them,
 and the reset of `identity.rs`.  The two identity files are fields here.
 */
module State {
  import opened Credentials
  import opened Nonces
  import opened RateLimit
  import opened Text
  import opened Wrappers
  import Validate

  /** What `forget_proxy_identity` did. */
  datatype ForgetReport = ForgetReport(removedProxyId: bool, rotatedKey: bool, hadProxyId: bool)

  /** Why the process does not come up: a file is there and cannot be read as what it should hold. */
  datatype OpenError = BadKeyFile | BadIdFile

  function EnrolledAgent(publicKey: string, state: Validate.AgentState): Validate.CachedAgent {
    Validate.CachedAgent(Trim(publicKey, IsWhitespace), None, None, state)
  }

  class AppState {
    const settings: Settings
    var diskKey: Option<Credentials.Key>
    var diskId: Option<ProxyId>
    var keypair: Credentials.Key
    var proxyId: Option<ProxyId>
    var agents: AgentTable
    var enrollmentTokens: map<string, Validate.EnrollmentToken>
    var proxyEnrollmentTokens: map<string, Option<ProxyId>>
    const nonces: NonceCache
    const rateLimits: RateLimiter
    var forwarding: bool

    /** What the upstream holds: for the specifications only. */
    ghost var upstream: map<ProxyId, Credentials.Key>

    ghost function View(): Proxy
      reads this
    {
      Proxy(diskKey, diskId, keypair, proxyId, forwarding, agents, enrollmentTokens, proxyEnrollmentTokens, upstream)
    }

    /** `generated` is the key drawn if none is on disk. */
    constructor (settings: Settings, diskKey: Option<Credentials.Key>, diskId: Option<ProxyId>,
                 generated: Credentials.Key, ghost upstream: map<ProxyId, Credentials.Key>)
      ensures this.settings == settings && fresh(nonces) && fresh(rateLimits)
      ensures nonces.inner == map[] && rateLimits.rateLimits == map[]
      ensures View()
           == Start(Proxy(diskKey, diskId, generated, diskId, false, map[], map[], map[], upstream), generated)
    {
      this.settings := settings;
      this.keypair := if diskKey.Some? then diskKey.value else generated;
      this.diskKey := if diskKey.Some? then diskKey else Some(generated);
      this.diskId, this.proxyId := diskId, diskId;
      this.agents, this.enrollmentTokens, this.proxyEnrollmentTokens := map[], map[], map[];
      this.nonces := new NonceCache();
      this.rateLimits := new RateLimiter();
      this.forwarding := false;
      this.upstream := upstream;
    }

    method ReplaceKeypair(keypair: Credentials.Key)
      modifies this
      ensures View() == old(View()).(memKey := keypair)
    {
      this.keypair := keypair;
    }

    method SetForwarding(enabled: bool)
      modifies this
      ensures View() == old(View()).(forwarding := enabled)
    {
      forwarding := enabled;
    }

    /** Remove the old file if there is one, write the new one, then remember the id. */
    method SetProxyId(id: ProxyId)
      modifies this
      ensures View() == old(View()).(diskId := Some(id), memId := Some(id))
    {
      if diskId.Some? {
        diskId := None;
      }
      diskId := Some(id);
      proxyId := Some(id);
    }

    /** Only the files: the caller brings memory into line. */
    method ForgetProxyIdentity(newKey: Credentials.Key) returns (report: ForgetReport)
      modifies this
      ensures report.removedProxyId <==> old(diskId).Some?
      ensures report.hadProxyId <==> old(diskId).Some? && !Validate.Blank(old(diskId).value)
      ensures report.rotatedKey <==> old(diskId).Some? || old(diskKey).Some?
      ensures var key := if report.rotatedKey then Some(newKey) else old(diskKey);
              View() == old(View()).(diskId := None, diskKey := key)
    {
      report := ForgetReport(false, false, false);
      var hadKey := diskKey.Some?;
      if diskId.Some? {
        report := report.(hadProxyId := !Validate.Blank(diskId.value));
        diskId := None;
        report := report.(removedProxyId := true);
      }
      if report.removedProxyId || hadKey {
        diskKey := Some(newKey);
        report := report.(rotatedKey := true);
      }
    }

    method ClearProxyIdentity(newKey: Credentials.Key)
      modifies this
      ensures View() == Reset(old(View()), newKey)
    {
      var report := ForgetProxyIdentity(newKey);
      if report.rotatedKey {
        ReplaceKeypair(diskKey.value);
      }
      proxyId := None;
      SetForwarding(false);
    }

    method UpsertAgentFromEnroll(agentId: Validate.AgentId, publicKey: string, state: Validate.AgentState)
      modifies this
      ensures View() == old(View()).(agents := old(agents)[agentId := EnrolledAgent(publicKey, state)])
    {
      agents := agents[agentId := EnrolledAgent(publicKey, state)];
    }
  }

  /**
   The start of the process.  `keyFile` and `idFile` are the files, if they exist: a key or something that is
   none, and a text.  A missing key file is written before the id file is looked at.
   */
  method Open(settings: Settings, keyFile: Option<Option<Credentials.Key>>, idFile: Option<string>,
              parseId: string -> Option<ProxyId>, generated: Credentials.Key,
              ghost upstream: map<ProxyId, Credentials.Key>)
      returns (result: Result<AppState, OpenError>, keyOnDisk: Option<Option<Credentials.Key>>)
    ensures keyOnDisk == if keyFile.None? then Some(Some(generated)) else keyFile
    ensures result.Failure? && result.error == BadKeyFile <==> keyFile == Some(None)
    ensures result.Failure? && result.error == BadIdFile <==>
              keyFile != Some(None) && idFile.Some? && parseId(Trim(idFile.value, IsWhitespace)).None?
    ensures result.Success? ==>
              var key := if keyFile.Some? then keyFile.value else None;
              var id := if idFile.Some? then parseId(Trim(idFile.value, IsWhitespace)) else None;
              && fresh(result.value) && result.value.settings == settings
              && result.value.nonces.inner == map[] && result.value.rateLimits.rateLimits == map[]
              && result.value.View()
                 == Start(Proxy(key, id, generated, id, false, map[], map[], map[], upstream), generated)
  {
    keyOnDisk := keyFile;
    if keyFile == Some(None) {
      return Failure(BadKeyFile), keyOnDisk;
    }
    if keyFile.None? {
      keyOnDisk := Some(Some(generated));
    }
    var id := None;
    if idFile.Some? {
      id := parseId(Trim(idFile.value, IsWhitespace));
      if id.None? {
        return Failure(BadIdFile), keyOnDisk;
      }
    }
    var state := new AppState(settings, if keyFile.Some? then keyFile.value else None, id, generated, upstream);
    result := Success(state);
  }
}
