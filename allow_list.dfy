/** The open-redirect guard: a URL is allowed when its hostname is one of
    four trusted hosts or a subdomain of one of them
    (packages/experience/src/Layout/AppLayout/index.tsx, `isAllowedUrl`). */
module AllowList {
  import opened Wrappers
  import opened Strings

  /** The hostname a URL parser extracts from a string, or `None` when the
      parser rejects it (`new URL(url)` throws). The WHATWG URL parser itself
      is not modelled: every member below holds for any such function. */
  type HostParser = string -> Option<string>

  /** `allowedHosts`, in declaration order. */
  const AllowedHosts: seq<string> := ["aaaauto.cz", "aaaauto.sk", "aaaauto.pl", "localhost"]

  /** The test applied to each allowed host: equal to it, or ending in a dot
      followed by it. */
  predicate HostMatches(hostname: string, host: string) {
    hostname == host || EndsWith(hostname, "." + host)
  }

  /** The specification: some allowed host matches the hostname. */
  predicate HostAllowed(hostname: string) {
    exists i :: 0 <= i < |AllowedHosts| && HostMatches(hostname, AllowedHosts[i])
  }

  /** Scans the host list front to back and stops at the first host that
      matches the hostname. */
  function AnyHostMatches(hostname: string, hosts: seq<string>): (found: bool)
    ensures found <==> exists i :: 0 <= i < |hosts| && HostMatches(hostname, hosts[i])
  {
    if hosts == [] then false
    else HostMatches(hostname, hosts[0]) || AnyHostMatches(hostname, hosts[1..])
  }

  /** `isAllowedUrl(url)`: a parse failure is caught and yields `false`;
      otherwise the hostname goes through the scan above. */
  function IsAllowedUrl(hostOf: HostParser, url: string): (ok: bool)
    ensures hostOf(url).None? ==> !ok
    ensures hostOf(url).Some? ==> (ok <==> HostAllowed(hostOf(url).value))
  {
    match hostOf(url)
    case None => false
    case Some(hostname) => AnyHostMatches(hostname, AllowedHosts)
  }

  /** A host matches exactly when the hostname ends with it at a prefix
      boundary: either nothing or a dot comes before it. */
  lemma HostMatchesAtLabelBoundary(hostname: string, host: string)
    ensures HostMatches(hostname, host) <==>
      && EndsWith(hostname, host)
      && (|hostname| == |host| || (|hostname| > |host| && hostname[|hostname| - |host| - 1] == '.'))
  {
  }

  /** A hostname matches no allowed host when its last character differs
      from every allowed host's and it is not exactly one of them. */
  lemma RejectedByLastChar(hostname: string)
    requires |hostname| > 0
    requires forall i :: 0 <= i < |AllowedHosts| ==> hostname != AllowedHosts[i]
    requires hostname[|hostname| - 1] !in {'z', 'k', 'l', 't'}
    ensures !HostAllowed(hostname)
  {
  }

  /** A trusted name as the leading label of a foreign domain is rejected. */
  lemma LeadingLabelRejected()
    ensures !HostAllowed("aaaauto.cz.evil.com")
  {
    RejectedByLastChar("aaaauto.cz.evil.com");
  }

  /** A hostname that merely ends in the letters of a trusted host, without
      a dot before them, is rejected. */
  lemma MissingDotRejected()
    ensures !HostAllowed("evilaaaauto.cz")
    ensures !HostAllowed("notlocalhost")
  {
    var evil, notLocal := "evilaaaauto.cz", "notlocalhost";
    forall i | 0 <= i < |AllowedHosts|
      ensures !HostMatches(evil, AllowedHosts[i])
      ensures !HostMatches(notLocal, AllowedHosts[i])
    {
      HostMatchesAtLabelBoundary(evil, AllowedHosts[i]);
      HostMatchesAtLabelBoundary(notLocal, AllowedHosts[i]);
      if i != 0 && EndsWith(evil, AllowedHosts[i]) {
        assert evil[|evil| - 1] == evil[|evil| - |AllowedHosts[i]|..][|AllowedHosts[i]| - 1];
      }
      if i != 3 && EndsWith(notLocal, AllowedHosts[i]) {
        assert notLocal[|notLocal| - 1] == notLocal[|notLocal| - |AllowedHosts[i]|..][|AllowedHosts[i]| - 1];
      }
    }
  }

  /** The trusted hosts themselves and their subdomains are accepted. */
  lemma TrustedHostsAccepted()
    ensures HostAllowed("www.aaaauto.cz") && HostAllowed("aaaauto.pl") && HostAllowed("localhost")
  {
    assert HostMatches("www.aaaauto.cz", AllowedHosts[0]) by {
      assert "www.aaaauto.cz"[3..] == ".aaaauto.cz";
    }
    assert HostMatches("aaaauto.pl", AllowedHosts[2]);
    assert HostMatches("localhost", AllowedHosts[3]);
  }

  /** Any subdomain of an allowed hostname is allowed too. */
  lemma SubdomainStaysAllowed(prefix: string, hostname: string)
    requires HostAllowed(hostname)
    ensures HostAllowed(prefix + "." + hostname)
  {
    var i :| 0 <= i < |AllowedHosts| && HostMatches(hostname, AllowedHosts[i]);
    var host := AllowedHosts[i];
    if hostname == host {
      EndsWithPrepend(prefix, "." + host, "." + host);
      assert prefix + "." + hostname == prefix + ("." + host);
    } else {
      EndsWithPrepend(prefix + ".", hostname, "." + host);
    }
    assert HostMatches(prefix + "." + hostname, AllowedHosts[i]);
  }
}
