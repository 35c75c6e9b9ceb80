/**
 * The adapter that lets goth's OAuth handlers run under Fiber
 * (internal/pkg/util/goth.go): it finds the provider name in the request
 * path, the segment right after the first "auth" segment, and records it in
 * the request context when goth has a provider of that name.
 */
module Goth {
  import opened Base
  import Text

  /** The context key the provider name is stored under. */
  const ProviderKey: string := "provider"

  /** An HTTP request as far as the adapter sees it. */
  datatype Request = Request(path: string, ctx: map<string, string>)

  /** The adapter returns a request, or panics on an index out of range. */
  datatype Outcome = Panics | Forwarded(req: Request)

  /** The position of the first "auth" segment. */
  function FirstAuth(parts: seq<string>): (r: Option<nat>)
    ensures r.Some? ==> r.value < |parts| && parts[r.value] == "auth"
    ensures r.Some? ==> forall j :: 0 <= j < r.value ==> parts[j] != "auth"
    ensures r.None? ==> forall j :: 0 <= j < |parts| ==> parts[j] != "auth"
    decreases |parts|
  {
    if parts == [] then None
    else if parts[0] == "auth" then Some(0)
    else match FirstAuth(parts[1..])
      case None => None
      case Some(i) => Some(i + 1)
  }

  /** What `FiberGothAdapter` does with `req`, given the names of the
      providers goth knows. */
  function Adapted(req: Request, providers: set<string>): (out: Outcome)
    ensures var parts := Text.Split(req.path, '/');
      out.Panics? <==> FirstAuth(parts) == Some(|parts| - 1)
    ensures var parts := Text.Split(req.path, '/');
      forall i :: FirstAuth(parts) == Some(i) && i + 1 < |parts| ==>
        out == Forwarded(if parts[i + 1] in providers then req.(ctx := req.ctx[ProviderKey := parts[i + 1]]) else req)
    ensures var parts := Text.Split(req.path, '/');
      FirstAuth(parts).None? ==>
        out == Forwarded(if parts[0] in providers then req.(ctx := req.ctx[ProviderKey := parts[0]]) else req)
    ensures out.Forwarded? ==> out.req.path == req.path
    ensures out.Forwarded? ==> out.req == req || exists p :: p in providers && out.req.ctx == req.ctx[ProviderKey := p]
  {
    var parts := Text.Split(req.path, '/');
    var index := match FirstAuth(parts) case None => 0 case Some(i) => i + 1;
    if index >= |parts| then Panics
    else
      var provider := parts[index];
      Forwarded(if provider in providers then req.(ctx := req.ctx[ProviderKey := provider]) else req)
  }

  /** `FiberGothAdapter`: split the path at '/', scan for "auth", index the
      segment after it (or the first segment), and store it if registered. */
  method FiberGothAdapter(req: Request, providers: set<string>) returns (out: Outcome)
    ensures out == Adapted(req, providers)
  {
    var pathParts := Text.Split(req.path, '/');
    var index := 0;
    var i := 0;
    while i < |pathParts|
      invariant 0 <= i <= |pathParts|
      invariant index == 0 && forall j :: 0 <= j < i ==> pathParts[j] != "auth"
    {
      if pathParts[i] == "auth" {
        index := i + 1;
        break;
      }
      i := i + 1;
    }
    if index >= |pathParts| {
      return Panics;
    }
    var provider := pathParts[index];
    var r := req;
    if provider in providers {
      r := req.(ctx := req.ctx[ProviderKey := provider]);
    }
    out := Forwarded(r);
  }

  /** Without an "auth" segment an absolute path yields the empty provider
      name, so the request goes through unchanged unless "" is registered. */
  lemma AbsolutePathWithoutAuth(req: Request, providers: set<string>)
    requires |req.path| > 0 && req.path[0] == '/'
    requires forall j :: 0 <= j < |Text.Split(req.path, '/')| ==> Text.Split(req.path, '/')[j] != "auth"
    requires "" !in providers
    ensures Adapted(req, providers) == Forwarded(req)
  {
    Text.SplitLeadingSeparator(req.path, '/');
  }

  /** A path ending in its first "auth" segment makes the adapter panic. */
  lemma TrailingAuthPanics(prefix: string, ctx: map<string, string>, providers: set<string>)
    requires forall j :: 0 <= j < |Text.Split(prefix, '/')| ==> Text.Split(prefix, '/')[j] != "auth"
    ensures Adapted(Request(prefix + "/auth", ctx), providers) == Panics
  {
    var path := prefix + "/auth";
    assert path == prefix + ['/'] + "auth";
    SplitAppend(prefix, "auth", '/');
    var pp := Text.Split(prefix, '/');
    SplitWithoutSeparator("auth", '/');
    var parts := Text.Split(path, '/');
    assert parts == pp + ["auth"];
    FirstAuthAfterClean(pp, ["auth"]);
    assert |parts| - 1 == |pp|;
    assert FirstAuth(pp + ["auth"]) == Some(|pp|);
  }

  /** A registered provider named right after the first "auth" ends up in the
      context, whatever follows it (a later "auth" segment included). */
  lemma ProviderRecorded(prefix: string, provider: string, suffix: string, ctx: map<string, string>,
                         providers: set<string>)
    requires forall j :: 0 <= j < |Text.Split(prefix, '/')| ==> Text.Split(prefix, '/')[j] != "auth"
    requires '/' !in provider && provider in providers
    requires suffix == "" || suffix[0] == '/'
    ensures Adapted(Request(prefix + "/auth/" + provider + suffix, ctx), providers)
         == Forwarded(Request(prefix + "/auth/" + provider + suffix, ctx[ProviderKey := provider]))
  {
    var path := prefix + "/auth/" + provider + suffix;
    var pp := Text.Split(prefix, '/');
    var after := Text.Split(provider + suffix, '/');
    SplitAuthPath(prefix, provider, suffix);
    var parts := Text.Split(path, '/');
    FirstAuthAfterClean(pp, ["auth"] + after);
    assert FirstAuth(parts) == Some(|pp|);
    assert parts[|pp| + 1] == provider;
  }

  /** How a path with an "auth" segment followed by a provider name splits. */
  lemma SplitAuthPath(prefix: string, provider: string, suffix: string)
    requires '/' !in provider
    requires suffix == "" || suffix[0] == '/'
    ensures Text.Split(prefix + "/auth/" + provider + suffix, '/')
         == Text.Split(prefix, '/') + (["auth"] + Text.Split(provider + suffix, '/'))
    ensures Text.Split(provider + suffix, '/')[0] == provider
  {
    var path := prefix + "/auth/" + provider + suffix;
    var tail := "auth/" + provider + suffix;
    assert path == prefix + ['/'] + tail;
    SplitAppend(prefix, tail, '/');
    assert tail == "auth" + ['/'] + (provider + suffix);
    SplitAppend("auth", provider + suffix, '/');
    SplitWithoutSeparator("auth", '/');
    SplitHeadWithoutSeparator(provider, suffix, '/');
    if suffix != "" {
      Text.SplitLeadingSeparator(suffix, '/');
    }
  }

  /** Splitting `a + [sep] + b` splits `a` and `b` separately. */
  lemma {:induction false} SplitAppend(a: string, b: string, sep: char)
    ensures Text.Split(a + [sep] + b, sep) == Text.Split(a, sep) + Text.Split(b, sep)
    decreases |a|
  {
    if a == [] {
      assert a + [sep] + b == [sep] + b;
      assert ([sep] + b)[1..] == b;
    } else {
      assert (a + [sep] + b)[1..] == a[1..] + [sep] + b;
      SplitAppend(a[1..], b, sep);
    }
  }

  /** The first piece of `p + rest` is `p` followed by the first piece of
      `rest`, when `p` holds no separator. */
  lemma {:induction false} SplitHeadWithoutSeparator(p: string, rest: string, sep: char)
    requires sep !in p
    ensures Text.Split(p + rest, sep)[0] == p + Text.Split(rest, sep)[0]
    decreases |p|
  {
    if p != [] {
      var s := p + rest;
      assert s[1..] == p[1..] + rest;
      assert s[0] == p[0] != sep;
      var r := Text.Split(p[1..] + rest, sep);
      assert Text.Split(s, sep) == [[p[0]] + r[0]] + r[1..];
      SplitHeadWithoutSeparator(p[1..], rest, sep);
      assert r[0] == p[1..] + Text.Split(rest, sep)[0];
      assert Text.Split(s, sep)[0] == [p[0]] + r[0];
      assert [p[0]] + (p[1..] + Text.Split(rest, sep)[0]) == p + Text.Split(rest, sep)[0];
    } else {
      assert p + rest == rest;
    }
  }

  /** A string without the separator is a single piece. */
  lemma {:induction false} SplitWithoutSeparator(p: string, sep: char)
    requires sep !in p
    ensures Text.Split(p, sep) == [p]
    decreases |p|
  {
    if p != [] {
      assert p[0] != sep;
      SplitWithoutSeparator(p[1..], sep);
      assert [p[0]] + p[1..] == p;
    }
  }

  lemma {:induction false} FirstAuthAfterClean(a: seq<string>, b: seq<string>)
    requires forall j :: 0 <= j < |a| ==> a[j] != "auth"
    requires |b| > 0 && b[0] == "auth"
    ensures FirstAuth(a + b) == Some(|a|)
    decreases |a|
  {
    if a != [] {
      assert (a + b)[1..] == a[1..] + b;
      FirstAuthAfterClean(a[1..], b);
    }
  }
}
