/**
 The host names that a Gateway API route serves on a listener.

 A pattern is a host name, a host name whose first label is `*`, or empty for every name.
 */
module Hosts {
  import opened Wrappers

  predicate HasSuffix(s: string, t: string) {
    |t| <= |s| && s[|s| - |t|..] == t
  }

  predicate IsWildcard(p: string) {
    p != "" && p[0] == '*'
  }

  /** The pattern without a leading star. */
  function Tail(p: string): string {
    if IsWildcard(p) then p[1..] else p
  }

  /** The name ends like the wildcard, with something in place of the star. */
  predicate HostnameMatchesWildcardHostname(hostname: string, wildcard: string) {
    HasSuffix(hostname, Tail(wildcard)) && |hostname| > |Tail(wildcard)|
  }

  /** Another listener has the very host name, or a wildcard for it that is longer than the listener's. */
  predicate Claims(other: string, route: string, listener: string) {
    route == other ||
    (IsWildcard(other) && HostnameMatchesWildcardHostname(route, other) && |other| > |listener|)
  }

  predicate ClaimedByOthers(others: seq<string>, route: string, listener: string) {
    exists i | 0 <= i < |others| :: Claims(others[i], route, listener)
  }

  /** What one route host name adds to the host names on the listener. */
  function HostFor(route: string, listener: string, others: seq<string>): Option<string> {
    if listener == "" then if ClaimedByOthers(others, route, listener) then None else Some(route)
    else if listener == route then Some(route)
    else if IsWildcard(listener) then
      if HostnameMatchesWildcardHostname(route, listener) && !ClaimedByOthers(others, route, listener) then Some(route)
      else None
    else if IsWildcard(route) && HostnameMatchesWildcardHostname(listener, route) then Some(listener)
    else None
  }

  ghost predicate IsHost(valid: string -> bool, routes: seq<string>, listener: string, others: seq<string>, h: string) {
    if routes == [] then h == if listener != "" then listener else "*"
    else exists r | r in routes :: valid(r) && HostFor(r, listener, others) == Some(h)
  }

  function InvalidOnes(valid: string -> bool, routes: seq<string>): seq<string> {
    if routes == [] then []
    else InvalidOnes(valid, routes[..|routes| - 1]) + if valid(routes[|routes| - 1]) then [] else [routes[|routes| - 1]]
  }

  /** The invalid route host names are reported, each as often as it is there, and no others. */
  lemma {:induction false} InvalidOnesAre(valid: string -> bool, routes: seq<string>, r: string)
    ensures multiset(InvalidOnes(valid, routes))[r] == if valid(r) then 0 else multiset(routes)[r]
  {
    if routes != [] {
      InvalidOnesAre(valid, routes[..|routes| - 1], r);
      assert routes == routes[..|routes| - 1] + [routes[|routes| - 1]];
    }
  }

  // ---------- The methods ----------

  method OtherListenerIntersection(others: seq<string>, route: string, listener: string) returns (claimed: bool)
    ensures claimed <==> ClaimedByOthers(others, route, listener)
  {
    for i := 0 to |others|
      invariant forall j | 0 <= j < i :: !Claims(others[j], route, listener)
    {
      if route == others[i] {
        return true;
      }
      if IsWildcard(others[i]) && HostnameMatchesWildcardHostname(route, others[i]) && |others[i]| > |listener| {
        return true;
      }
    }
    return false;
  }

  /** The host names to match for a route, and the route host names that are not valid. */
  method ComputeHosts(valid: string -> bool, routes: seq<string>, listener: string, others: seq<string>)
    returns (hosts: set<string>, errs: seq<string>)
    ensures forall h :: h in hosts <==> IsHost(valid, routes, listener, others, h)
    ensures errs == InvalidOnes(valid, routes)
  {
    if |routes| == 0 {
      if |listener| > 0 {
        return {listener}, [];
      }
      return {"*"}, [];
    }
    hosts, errs := {}, [];
    for i := 0 to |routes|
      invariant forall h :: h in hosts <==>
                  exists j | 0 <= j < i :: valid(routes[j]) && HostFor(routes[j], listener, others) == Some(h)
      invariant errs == InvalidOnes(valid, routes[..i])
    {
      var route := routes[i];
      assert routes[..i + 1][..i] == routes[..i];
      if !valid(route) {
        errs := errs + [route];
        continue;
      }
      if |listener| == 0 {
        var claimed := OtherListenerIntersection(others, route, listener);
        if !claimed {
          hosts := hosts + {route};
        }
      } else if listener == route {
        hosts := hosts + {route};
      } else if IsWildcard(listener) {
        var claimed := OtherListenerIntersection(others, route, listener);
        if HostnameMatchesWildcardHostname(route, listener) && !claimed {
          hosts := hosts + {route};
        }
      } else if IsWildcard(route) {
        if HostnameMatchesWildcardHostname(listener, route) {
          hosts := hosts + {listener};
        }
      }
    }
    assert routes[..|routes|] == routes;
  }

  // ---------- What a pattern stands for ----------

  predicate Concrete(h: string) {
    h != "" && !IsWildcard(h)
  }

  /** The concrete names that a pattern stands for. */
  predicate Denotes(p: string, h: string) {
    && Concrete(h)
    && (p == "" || (if IsWildcard(p) then HostnameMatchesWildcardHostname(h, p) else h == p))
  }

  /** A wildcard stands for the concrete names that put something in place of the star, and for no others. */
  lemma DenotesIff(p: string, h: string)
    requires p != "" && h != "" && h[0] != '*'
    ensures Denotes(p, h) <==> if p[0] == '*' then exists x :: x != "" && h == x + p[1..] else h == p
  {
    if p[0] == '*' { MatchesIff(h, p); }
  }

  lemma MatchesIff(h: string, wildcard: string)
    requires wildcard != "" && wildcard[0] == '*'
    ensures HostnameMatchesWildcardHostname(h, wildcard) <==> exists x :: x != "" && h == x + wildcard[1..]
  {
    var n := |h| - |wildcard[1..]|;
    if HostnameMatchesWildcardHostname(h, wildcard) {
      assert h[..n] != "" && h == h[..n] + wildcard[1..];
    }
    if x :| x != "" && h == x + wildcard[1..] {
      assert h[|x|..] == wildcard[1..];
    }
  }

  /** Another listener claims a host name exactly if it has the very name, or a wildcard that is longer than the
      listener's own pattern and matches the name. */
  lemma ClaimedIff(others: seq<string>, route: string, listener: string)
    ensures ClaimedByOthers(others, route, listener) <==>
            exists o | o in others ::
              || o == route
              || (|o| > |listener| && o != "" && o[0] == '*' && exists x :: x != "" && route == x + o[1..])
  {
    forall o | o != "" && o[0] == '*'
      ensures HostnameMatchesWildcardHostname(route, o) <==> exists x :: x != "" && route == x + o[1..]
    {
      MatchesIff(route, o);
    }
    if ClaimedByOthers(others, route, listener) {
      var i :| 0 <= i < |others| && Claims(others[i], route, listener);
      assert others[i] in others;
    }
    if o :| o in others && (o == route || (|o| > |listener| && o != "" && o[0] == '*'
                                           && exists x :: x != "" && route == x + o[1..])) {
      var i :| 0 <= i < |others| && others[i] == o;
      assert Claims(others[i], route, listener);
    }
  }

  lemma SuffixOfSuffix(s: string, t: string, u: string)
    requires HasSuffix(s, t) && HasSuffix(t, u)
    ensures HasSuffix(s, u)
  {
    assert s[|s| - |u|..] == s[|s| - |t|..][|t| - |u|..];
  }

  lemma ComparableSuffixes(s: string, t: string, u: string)
    requires HasSuffix(s, t) && HasSuffix(s, u) && |u| <= |t|
    ensures HasSuffix(t, u)
  {
    assert s[|s| - |u|..] == s[|s| - |t|..][|t| - |u|..];
  }

  /** A pattern that matches a wildcard stands for no other names than the wildcard. */
  lemma MatchNarrows(p: string, wildcard: string, h: string)
    requires p != "" && IsWildcard(wildcard) && HostnameMatchesWildcardHostname(p, wildcard) && Denotes(p, h)
    ensures Denotes(wildcard, h)
  {
    if IsWildcard(p) {
      ComparableSuffixes(p, Tail(p), Tail(wildcard));
      SuffixOfSuffix(h, Tail(p), Tail(wildcard));
    }
  }

  /** Everything a result stands for is in the listener's pattern and in some route pattern. */
  lemma HostsAreShared(valid: string -> bool, routes: seq<string>, listener: string, others: seq<string>,
                       p: string, h: string)
    requires IsHost(valid, routes, listener, others, p) && Denotes(p, h)
    ensures Denotes(listener, h)
    ensures routes != [] ==> exists r | r in routes :: valid(r) && Denotes(r, h)
  {
    if routes != [] {
      var r :| r in routes && valid(r) && HostFor(r, listener, others) == Some(p);
      if p == r && listener != "" && listener != r {
        MatchNarrows(r, listener, h);
      } else if p == listener && listener != r {
        MatchNarrows(listener, r, h);
      }
      assert Denotes(r, h);
    }
  }

  /** On an empty or wildcard listener no result but the listener's own host name is claimed by another listener. */
  lemma HostsAreUnclaimed(valid: string -> bool, routes: seq<string>, listener: string, others: seq<string>,
                          p: string, o: string)
    requires routes != [] && IsHost(valid, routes, listener, others, p) && o in others
    requires (listener == "" || IsWildcard(listener)) && p != listener
    ensures p != o && !(IsWildcard(o) && HostnameMatchesWildcardHostname(p, o) && |o| > |listener|)
  {
    var i :| 0 <= i < |others| && others[i] == o;
    assert !Claims(others[i], p, listener);
  }

  /** More listeners beside this one leave no more host names for it. */
  lemma MoreOthersFewerHosts(valid: string -> bool, routes: seq<string>, listener: string, others: seq<string>,
                             more: seq<string>, p: string)
    requires (forall o | o in others :: o in more) && IsHost(valid, routes, listener, more, p)
    ensures IsHost(valid, routes, listener, others, p)
  {
    if routes != [] {
      var r :| r in routes && valid(r) && HostFor(r, listener, more) == Some(p);
      if ClaimedByOthers(others, r, listener) {
        var i :| 0 <= i < |others| && Claims(others[i], r, listener);
        assert others[i] in more;
        var j :| 0 <= j < |more| && more[j] == others[i];
        assert Claims(more[j], r, listener);
      }
      assert HostFor(r, listener, others) == Some(p);
    }
  }

  // ---------- When a route host name is dropped ----------

  ghost predicate Intersect(p: string, q: string) {
    exists h :: Denotes(p, h) && Denotes(q, h)
  }

  /** Both are wildcards and the listener's stands for fewer names. */
  predicate ListenerNarrower(listener: string, route: string) {
    && IsWildcard(listener) && IsWildcard(route)
    && HasSuffix(Tail(listener), Tail(route)) && |Tail(route)| < |Tail(listener)|
  }

  lemma WildcardsIntersect(p: string, q: string)
    requires IsWildcard(p) && IsWildcard(q)
    ensures Intersect(p, q) <==> HasSuffix(Tail(p), Tail(q)) || HasSuffix(Tail(q), Tail(p))
  {
    if Intersect(p, q) {
      var h :| Denotes(p, h) && Denotes(q, h);
      CommonName(p, q, h);
    }
    hide HasSuffix, Denotes, Tail, IsWildcard;
    if HasSuffix(Tail(p), Tail(q)) {
      StarFilled(p, q);
    } else if HasSuffix(Tail(q), Tail(p)) {
      StarFilled(q, p);
    }
  }

  lemma CommonName(p: string, q: string, h: string)
    requires IsWildcard(p) && IsWildcard(q) && Denotes(p, h) && Denotes(q, h)
    ensures HasSuffix(Tail(p), Tail(q)) || HasSuffix(Tail(q), Tail(p))
  {
    if |Tail(q)| <= |Tail(p)| {
      ComparableSuffixes(h, Tail(p), Tail(q));
    } else {
      ComparableSuffixes(h, Tail(q), Tail(p));
    }
  }

  /** A name for the longer of two wildcards is one for the shorter. */
  lemma StarFilled(p: string, q: string)
    requires IsWildcard(p) && IsWildcard(q) && HasSuffix(Tail(p), Tail(q))
    ensures Denotes(p, "x" + Tail(p)) && Denotes(q, "x" + Tail(p))
  {
    SuffixOfSuffix("x" + Tail(p), Tail(p), Tail(q));
  }

  lemma EverythingIntersects(p: string)
    requires p != ""
    ensures Intersect("", p)
  {
    if IsWildcard(p) {
      StarFilled(p, p);
      assert Denotes("", "x" + Tail(p));
    } else {
      assert Denotes("", p) && Denotes(p, p);
    }
  }

  /** A route host name adds nothing exactly when it shares no name with the listener, when the listener's
      wildcard is the narrower of two, or when another listener claims it. */
  lemma DroppedIff(route: string, listener: string, others: seq<string>)
    requires route != ""
    ensures HostFor(route, listener, others).None? <==>
            || !Intersect(listener, route)
            || ListenerNarrower(listener, route)
            || ((listener == "" || IsWildcard(listener)) && listener != route && ClaimedByOthers(others, route, listener))
  {
    if listener == "" {
      EverythingIntersects(route);
    } else if listener == route {
      EverythingIntersects(route);
    } else if IsWildcard(listener) && IsWildcard(route) {
      WildcardsIntersect(listener, route);
      SuffixOfWildcard(route, Tail(listener));
    } else if IsWildcard(listener) {
      assert Denotes(route, route);
      assert Intersect(listener, route) <==> HostnameMatchesWildcardHostname(route, listener);
    } else if IsWildcard(route) {
      assert Denotes(listener, listener);
      assert Intersect(listener, route) <==> HostnameMatchesWildcardHostname(listener, route);
    }
  }

  /** A listener for a subdomain drops a route for the whole domain although they share names. */
  lemma NarrowerIsDropped(route: string, sub: string, others: seq<string>)
    requires IsWildcard(route) && sub != ""
    ensures var listener := "*" + (sub + Tail(route));
            HostFor(route, listener, others).None? && Intersect(listener, route)
  {
    var listener := "*" + (sub + Tail(route));
    assert Tail(listener) == sub + Tail(route);
    WildcardsIntersect(listener, route);
    DroppedIff(route, listener, others);
  }

  lemma SuffixOfWildcard(w: string, t: string)
    requires IsWildcard(w)
    ensures HasSuffix(w, t) && |w| > |t| <==> HasSuffix(Tail(w), t)
  {
    if |w| > |t| {
      assert w[|w| - |t|..] == Tail(w)[|Tail(w)| - |t|..];
    }
  }
}
