/**
  The bind-string resolver `urlToListener`: maps a bind string to the network and
  address handed to `net.ListenConfig.Listen`, or to an error.
 */
module GrpcBind {
  import opened GoStrings

  const SchemeSep: string := "://"

  datatype BindError =
    | EmptyBindAddress                  // "empty bind address"
    | MissingScheme(bind: string)       // "unsupported bind address %q, missing scheme"
    | UnsupportedScheme(scheme: string) // "unsupported scheme %q"

  datatype Resolution =
    | Resolved(network: string, address: string)
    | Failed(error: BindError)

  /** `urlToListener`. */
  function UrlToListener(bind: string): (r: Resolution)
    ensures bind == [] <==> r == Failed(EmptyBindAddress)
    ensures r.Resolved? ==> r.network == "unix" || r.network == "tcp"
    ensures r.Resolved? ==> |r.address| <= |bind| && bind[|bind| - |r.address|..] == r.address
  {
    if |bind| == 0 then Failed(EmptyBindAddress)
    else if bind[0] == '/' then Resolved("unix", bind)
    else if bind[0] == ':' then Resolved("tcp", bind)
    else
      var parts := SplitN2(bind, SchemeSep);
      if |parts| != 2 then Failed(MissingScheme(bind))
      else if parts[0] == "unix" then Resolved("unix", parts[1])
      else if parts[0] == "tcp" then Resolved("tcp", parts[1])
      else Failed(UnsupportedScheme(parts[0]))
  }

  /** `bind` is `scheme://addr`, split at the first occurrence of `://`. */
  ghost predicate SchemeForm(bind: string, scheme: string, addr: string)
  {
    bind == scheme + SchemeSep + addr
    && forall j :: 0 <= j < |scheme| ==> !OccursAt(bind, SchemeSep, j)
  }

  /**
    The bind-string grammar, rules in priority order: a leading `/` is a Unix socket
    path, a leading `:` a TCP address, otherwise `unix://PATH` or `tcp://ADDR` with the
    address taken verbatim after the first `://`.
   */
  ghost predicate Denotes(bind: string, network: string, addr: string)
  {
    |bind| > 0 &&
    if bind[0] == '/' then network == "unix" && addr == bind
    else if bind[0] == ':' then network == "tcp" && addr == bind
    else (network == "unix" || network == "tcp") && SchemeForm(bind, network, addr)
  }

  /** `://` cannot start at a position before `k` when no colon stands there. */
  lemma NoSepBeforeColon(s: string, k: int)
    requires forall i :: 0 <= i < k && i < |s| ==> s[i] != ':'
    ensures forall j :: j < k ==> !OccursAt(s, SchemeSep, j)
  {
    forall j | j < k ensures !OccursAt(s, SchemeSep, j) {
      if 0 <= j && j + 3 <= |s| {
        assert s[j..j + 3][0] == s[j];
      }
    }
  }

  /** The first `://` is where the scheme form says it is, so the split is unique. */
  lemma SchemeFormSplit(bind: string, scheme: string, addr: string)
    requires SchemeForm(bind, scheme, addr)
    ensures SplitN2(bind, SchemeSep) == [scheme, addr]
  {
    assert bind[|scheme|..|scheme| + 3] == SchemeSep;
    assert OccursAt(bind, SchemeSep, |scheme|);
    assert Index(bind, SchemeSep) == |scheme|;
    assert bind[..|scheme|] == scheme;
    assert bind[|scheme| + 3..] == addr;
  }

  /** Every successful resolution follows the grammar. */
  lemma UrlToListenerSound(bind: string)
    ensures UrlToListener(bind).Resolved? ==>
      Denotes(bind, UrlToListener(bind).network, UrlToListener(bind).address)
  {
  }

  /** Whatever the grammar assigns to a bind string, the resolver returns exactly that. */
  lemma UrlToListenerComplete(bind: string, network: string, addr: string)
    requires Denotes(bind, network, addr)
    ensures UrlToListener(bind) == Resolved(network, addr)
  {
    if bind[0] != '/' && bind[0] != ':' {
      SchemeFormSplit(bind, network, addr);
    }
  }

  /** The resolver fails exactly on the strings the grammar gives no meaning. */
  lemma UrlToListenerRejectsExactly(bind: string)
    ensures UrlToListener(bind).Failed? <==> forall n, a :: !Denotes(bind, n, a)
  {
    if UrlToListener(bind).Failed? {
      forall n, a ensures !Denotes(bind, n, a) {
        if Denotes(bind, n, a) {
          UrlToListenerComplete(bind, n, a);
        }
      }
    } else {
      UrlToListenerSound(bind);
    }
  }

  /** Which error a rejected string gets. */
  lemma UrlToListenerErrors(bind: string)
    ensures UrlToListener(bind) == Failed(MissingScheme(bind)) <==>
      |bind| > 0 && bind[0] != '/' && bind[0] != ':' && forall j :: !OccursAt(bind, SchemeSep, j)
    ensures UrlToListener(bind).Failed? && UrlToListener(bind).error.UnsupportedScheme? ==>
      var scheme := UrlToListener(bind).error.scheme;
      scheme != "unix" && scheme != "tcp" && exists addr :: SchemeForm(bind, scheme, addr)
  {
    if |bind| > 0 && bind[0] != '/' && bind[0] != ':' {
      var parts := SplitN2(bind, SchemeSep);
      if |parts| == 2 {
        assert SchemeForm(bind, parts[0], parts[1]);
      }
    }
  }

  /** The scheme form round-trips: the scheme, `://` and the address give back the input. */
  lemma SchemeFormRoundTrip(bind: string)
    requires |bind| > 0 && bind[0] != '/' && bind[0] != ':'
    requires UrlToListener(bind).Resolved?
    ensures UrlToListener(bind).network + SchemeSep + UrlToListener(bind).address == bind
  {
  }

  /**
    Writing a network and any address in scheme form and resolving it gives back the
    same pair: no normalisation of the address, even when it is empty or contains
    another `://`.
   */
  lemma FormatThenResolve(network: string, addr: string)
    requires network == "unix" || network == "tcp"
    ensures UrlToListener(network + SchemeSep + addr) == Resolved(network, addr)
  {
    var bind := network + SchemeSep + addr;
    NoSepBeforeColon(bind, |network|);
    assert SchemeForm(bind, network, addr);
    UrlToListenerComplete(bind, network, addr);
  }

  /** The accepted cases of the package's table test that start with `:` or `/`. */
  lemma TableCasesPrefixed()
    ensures UrlToListener(":8080") == Resolved("tcp", ":8080")
    ensures UrlToListener("/path/to/socket") == Resolved("unix", "/path/to/socket")
  {
  }

  // The accepted scheme-form cases of the package's table test, one lemma each.

  lemma UnixAbsolutePathCase()
    ensures UrlToListener("unix:///path/to/socket") == Resolved("unix", "/path/to/socket")
  {
    SchemeCase("unix", "/path/to/socket", "unix:///path/to/socket");
  }

  lemma UnixRelativePathCase()
    ensures UrlToListener("unix://../relative/path/to/socket") == Resolved("unix", "../relative/path/to/socket")
  {
    SchemeCase("unix", "../relative/path/to/socket", "unix://../relative/path/to/socket");
  }

  lemma TcpPortCases()
    ensures UrlToListener("tcp://:8080") == Resolved("tcp", ":8080")
    ensures UrlToListener("tcp://:0") == Resolved("tcp", ":0")
  {
    SchemeCase("tcp", ":8080", "tcp://:8080");
    SchemeCase("tcp", ":0", "tcp://:0");
  }

  lemma TcpHostPortCase()
    ensures UrlToListener("tcp://127.0.0.1:8080") == Resolved("tcp", "127.0.0.1:8080")
  {
    SchemeCase("tcp", "127.0.0.1:8080", "tcp://127.0.0.1:8080");
  }

  lemma SchemeCase(network: string, addr: string, bind: string)
    requires network == "unix" || network == "tcp"
    requires bind == network + SchemeSep + addr
    ensures UrlToListener(bind) == Resolved(network, addr)
  {
    FormatThenResolve(network, addr);
  }

  /** The rejected cases of the package's table test. */
  lemma TableCasesRejected()
    ensures UrlToListener("") == Failed(EmptyBindAddress)
    ensures UrlToListener("foo") == Failed(MissingScheme("foo"))
    ensures UrlToListener("s3://:8080") == Failed(UnsupportedScheme("s3"))
  {
    NoSepBeforeColon("foo", 3);
    UrlToListenerErrors("foo");
    var bind := "s3://:8080";
    assert bind == "s3" + SchemeSep + ":8080";
    NoSepBeforeColon(bind, 2);
    SchemeFormSplit(bind, "s3", ":8080");
  }
}
