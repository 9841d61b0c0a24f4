/** The request-context middleware: the slot that makes the current request visible to
    code running inside it, and the client address taken from a request. */
module RequestContext {
  import opened Common

  datatype User = User(authenticated: bool, username: string)

  /** What the order signals read from a request: the `X-Forwarded-For` and `REMOTE_ADDR`
      meta entries, the application name of the resolved URL (None when nothing was
      resolved) and the user. */
  datatype Request = Request(
    forwardedFor: Option<string>, remoteAddr: Option<string>, appName: Option<string>, user: User)

  /** The characters Python's `str.strip()` removes (`str.isspace`). */
  const WHITESPACE: set<char> := {
    ' ', '\t', '\n', '\U{0b}', '\U{0c}', '\r', '\U{1c}', '\U{1d}', '\U{1e}', '\U{1f}', '\U{85}',
    '\U{a0}', '\U{1680}', '\U{2000}', '\U{2001}', '\U{2002}', '\U{2003}', '\U{2004}', '\U{2005}',
    '\U{2006}', '\U{2007}', '\U{2008}', '\U{2009}', '\U{200a}', '\U{2028}', '\U{2029}', '\U{202f}',
    '\U{205f}', '\U{3000}'}

  predicate IsSpace(c: char) {
    c in WHITESPACE
  }

  predicate AllSpace(s: string) {
    forall k :: 0 <= k < |s| ==> IsSpace(s[k])
  }

  /** `s` without its leading whitespace. */
  function TrimStart(s: string): (r: string)
    ensures |r| <= |s|
  {
    if |s| > 0 && IsSpace(s[0]) then TrimStart(s[1..]) else s
  }

  /** What `TrimStart` removes is a whitespace prefix, and what it keeps does not start
      with whitespace. */
  lemma {:induction false} TrimStartCuts(s: string)
    ensures |TrimStart(s)| <= |s| && TrimStart(s) == s[|s| - |TrimStart(s)|..]
    ensures TrimStart(s) == [] || !IsSpace(TrimStart(s)[0])
    ensures AllSpace(s[..|s| - |TrimStart(s)|])
  {
    if |s| > 0 && IsSpace(s[0]) {
      TrimStartCuts(s[1..]);
      var n := |s| - |TrimStart(s)|;
      assert s[..n] == [s[0]] + s[1..][..n - 1];
    }
  }

  /** `s` without its trailing whitespace. */
  function TrimEnd(s: string): (r: string)
    ensures |r| <= |s|
  {
    if |s| > 0 && IsSpace(s[|s| - 1]) then TrimEnd(s[..|s| - 1]) else s
  }

  /** What `TrimEnd` removes is a whitespace suffix, and what it keeps does not end with
      whitespace. */
  lemma {:induction false} TrimEndCuts(s: string)
    ensures |TrimEnd(s)| <= |s| && TrimEnd(s) == s[..|TrimEnd(s)|]
    ensures TrimEnd(s) == [] || !IsSpace(TrimEnd(s)[|TrimEnd(s)| - 1])
    ensures AllSpace(s[|TrimEnd(s)|..])
  {
    if |s| > 0 && IsSpace(s[|s| - 1]) {
      var p := s[..|s| - 1];
      TrimEndCuts(p);
      var m := |TrimEnd(s)|;
      assert s[m..] == p[m..] + [s[|s| - 1]];
      assert s[..m] == p[..m];
    }
  }

  /** `str.strip()`. */
  function Strip(s: string): (r: string)
    ensures |r| <= |s|
  {
    TrimEnd(TrimStart(s))
  }

  /** `Strip` keeps a slice of `s` that neither starts nor ends with whitespace, and
      everything it cuts off on either side is whitespace. */
  lemma StripCuts(s: string)
    ensures var i, r := |s| - |TrimStart(s)|, Strip(s);
      i + |r| <= |s| && r == s[i..i + |r|] && AllSpace(s[..i]) && AllSpace(s[i + |r|..])
    ensures Strip(s) == [] || (!IsSpace(Strip(s)[0]) && !IsSpace(Strip(s)[|Strip(s)| - 1]))
  {
    var t := TrimStart(s);
    var r := TrimEnd(t);
    var i := |s| - |t|;
    TrimStartCuts(s);
    TrimEndCuts(t);
    assert t == s[i..];
    assert r == t[..|r|];
    assert s[i..i + |r|] == s[i..][..|r|];
    assert s[i + |r|..] == t[|r|..];
    if r != [] {
      assert r[0] == t[0];
    }
  }

  /** A string with no whitespace at either end is its own strip. */
  lemma StripUnchanged(s: string)
    requires s == [] || (!IsSpace(s[0]) && !IsSpace(s[|s| - 1]))
    ensures Strip(s) == s
  {
    assert TrimStart(s) == s;
  }

  /** `s.split(",")[0]`: the text before the first comma, or all of `s` without one. */
  function FirstField(s: string): (r: string)
    ensures |r| <= |s|
  {
    if s == [] || s[0] == ',' then [] else [s[0]] + FirstField(s[1..])
  }

  /** The first field is a comma-free prefix of `s`, ended by a comma or by the end of `s`. */
  lemma {:induction false} FirstFieldCuts(s: string)
    ensures |FirstField(s)| <= |s| && FirstField(s) == s[..|FirstField(s)|] && ',' !in FirstField(s)
    ensures |FirstField(s)| < |s| ==> s[|FirstField(s)|] == ','
  {
    if s != [] && s[0] != ',' {
      FirstFieldCuts(s[1..]);
    }
  }

  /** `get_client_ip`: the first entry of a non-empty `X-Forwarded-For`, stripped;
      otherwise `REMOTE_ADDR`, which may be missing. */
  function ClientIp(request: Request): Option<string> {
    if request.forwardedFor.Some? && request.forwardedFor.value != "" then
      Some(Strip(FirstField(request.forwardedFor.value)))
    else
      request.remoteAddr
  }

  /** Everything before the first comma. */
  lemma {:induction false} FirstFieldOf(a: string, b: string)
    requires ',' !in a && (b == [] || b[0] == ',')
    ensures FirstField(a + b) == a
  {
    if a != [] {
      assert (a + b)[1..] == a[1..] + b;
      FirstFieldOf(a[1..], b);
    }
  }

  /** `ip` sits in `header` at `i`, inside the first entry `header[..f]`: the entry holds
      no comma and ends at a comma or at the end of the header, and only whitespace
      surrounds `ip` within it. */
  predicate EntryAt(header: string, ip: string, i: int, f: int) {
    0 <= i <= i + |ip| <= f <= |header| &&
    ',' !in header[..f] && (f == |header| || header[f] == ',') &&
    ip == header[i..i + |ip|] && AllSpace(header[..i]) && AllSpace(header[i + |ip|..f])
  }

  /** `ip` is the first entry of `header` with the whitespace at both ends cut off. */
  predicate IsStrippedFirstEntry(header: string, ip: string) {
    ',' !in ip && (ip == [] || (!IsSpace(ip[0]) && !IsSpace(ip[|ip| - 1]))) &&
    exists i, f | 0 <= i <= f <= |header| :: EntryAt(header, ip, i, f)
  }

  /** A non-empty forwarded header wins over the remote address: the result is the
      header's first entry (the text up to the first comma, or all of it) with the
      whitespace at both ends cut off. */
  lemma ForwardedForWins(request: Request)
    requires request.forwardedFor.Some? && request.forwardedFor.value != ""
    ensures ClientIp(request).Some?
    ensures IsStrippedFirstEntry(request.forwardedFor.value, ClientIp(request).value)
  {
    var header := request.forwardedFor.value;
    assert ClientIp(request) == Some(Strip(FirstField(header)));
    FirstEntryStripped(header);
  }

  /** A slice of the prefix `s[..f]` is the same slice of `s`. */
  lemma SliceOfPrefix(s: string, f: int, a: int, b: int)
    requires 0 <= a <= b <= f <= |s|
    ensures s[..f][a..b] == s[a..b]
  {
  }

  /** The stripped first field of any header is its stripped first entry. */
  lemma FirstEntryStripped(header: string)
    ensures IsStrippedFirstEntry(header, Strip(FirstField(header)))
  {
    var field := FirstField(header);
    var ip := Strip(field);
    var i := |field| - |TrimStart(field)|;
    var f := |field|;
    FirstFieldCuts(header);
    StripCuts(field);
    assert header[..f] == field;
    assert i + |ip| <= f && ip == field[i..i + |ip|];
    SliceOfPrefix(header, f, i, i + |ip|);
    SliceOfPrefix(header, f, 0, i);
    SliceOfPrefix(header, f, i + |ip|, f);
    assert field[i + |ip|..] == field[i + |ip|..f];
    assert EntryAt(header, ip, i, f);
    assert ',' !in ip by {
      forall j | 0 <= j < |ip|
        ensures ip[j] != ','
      {
        assert ip[j] == field[i + j];
      }
    }
  }

  /** A single address without commas or surrounding whitespace is returned as sent. */
  lemma SingleForwardedAddress(request: Request)
    requires request.forwardedFor.Some? && request.forwardedFor.value != ""
    requires ',' !in request.forwardedFor.value
    requires !IsSpace(request.forwardedFor.value[0])
    requires !IsSpace(request.forwardedFor.value[|request.forwardedFor.value| - 1])
    ensures ClientIp(request) == request.forwardedFor
  {
    var header := request.forwardedFor.value;
    FirstFieldOf(header, []);
    assert header + [] == header;
    StripUnchanged(header);
  }

  /** Without a usable forwarded header the remote address is returned, possibly None. */
  lemma FallsBackToRemoteAddr(request: Request)
    requires request.forwardedFor.None? || request.forwardedFor.value == ""
    ensures ClientIp(request) == request.remoteAddr
  {
  }

  /** Two forwarded addresses: the first is returned. */
  lemma ForwardedForExample(user: User, app: Option<string>)
    ensures ClientIp(Request(Some("1.2.3.4, 5.6.7.8"), Some("9.9.9.9"), app, user)) == Some("1.2.3.4")
  {
    assert "1.2.3.4, 5.6.7.8" == "1.2.3.4" + ", 5.6.7.8";
    FirstFieldOf("1.2.3.4", ", 5.6.7.8");
    StripUnchanged("1.2.3.4");
  }

  /** What the wrapped handler does, given what `get_current_request()` returns while it
      runs: it returns a response or raises. */
  datatype Outcome = Returned(response: int) | Raised(error: string)

  /** The per-request context slot and `RequestContextMiddleware.__call__`. */
  class RequestContextMiddleware {
    /** The `request` attribute of the context; None when absent. */
    var current: Option<Request>

    constructor ()
      ensures current.None?
    {
      current := None;
    }

    /** `get_current_request`. */
    function CurrentRequest(): Option<Request>
      reads this
    {
      current
    }

    /** Sets the slot, runs the handler, and clears the slot whatever the handler did:
        the handler sees the request it was called with, its outcome (response or
        exception) passes through, and afterwards `get_current_request()` is None. */
    method Call(request: Request, handler: Option<Request> -> Outcome) returns (outcome: Outcome, seen: Option<Request>)
      modifies this
      ensures seen == Some(request)
      ensures outcome == handler(Some(request))
      ensures CurrentRequest() == None
    {
      current := Some(request);
      seen := CurrentRequest();
      outcome := handler(seen);
      if current.Some? {
        current := None;
      }
    }
  }
}
