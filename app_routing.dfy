/** The navigation router of the base project: a manual stack of
    authentication destinations mirrored by the navigation path that
    SwiftUI's NavigationStack is bound to, and the top-level route flow. */
module Routing {

  /** The destinations the authentication flow can push. */
  datatype AuthFlow = Login | SignUp(name: string) | Profile | ForgotPassword | EmailSent

  /** The two top-level flows of the app. */
  datatype RouteFlow = AuthModule | Dashboard

  /** The stack that is left after popping `s` until `d` is on top or the
      stack is empty. */
  function PopUntil(s: seq<AuthFlow>, d: AuthFlow): (r: seq<AuthFlow>)
    ensures r == [] || r[|r| - 1] == d
  {
    if s == [] || s[|s| - 1] == d then s else PopUntil(s[..|s| - 1], d)
  }

  /** Popping until a destination only ever keeps a prefix of the stack. */
  lemma {:induction false} PopUntilIsPrefix(s: seq<AuthFlow>, d: AuthFlow)
    ensures |PopUntil(s, d)| <= |s|
    ensures PopUntil(s, d) == s[..|PopUntil(s, d)|]
  {
    if s != [] && s[|s| - 1] != d {
      var t := s[..|s| - 1];
      PopUntilIsPrefix(t, d);
      assert t[..|PopUntil(t, d)|] == s[..|PopUntil(t, d)|];
    }
  }

  /** When `d` is on the stack, popping stops at its LAST occurrence: `d` ends
      on top and nothing above that point was `d`. */
  lemma {:induction false} PopUntilStopsAtLastOccurrence(s: seq<AuthFlow>, d: AuthFlow)
    requires d in s
    ensures |PopUntil(s, d)| > 0
    ensures PopUntil(s, d)[|PopUntil(s, d)| - 1] == d
    ensures forall i :: |PopUntil(s, d)| <= i < |s| ==> s[i] != d
  {
    if s[|s| - 1] != d {
      var t := s[..|s| - 1];
      assert d in t by {
        var k :| 0 <= k < |s| && s[k] == d;
        assert t[k] == d;
      }
      PopUntilStopsAtLastOccurrence(t, d);
      PopUntilIsPrefix(t, d);
      forall i | |PopUntil(t, d)| <= i < |s|
        ensures s[i] != d
      {
        if i < |t| {
          assert s[i] == t[i];
        }
      }
    }
  }

  /** Popping empties the stack exactly when `d` is not on it. */
  lemma {:induction false} PopUntilEmptiesIffAbsent(s: seq<AuthFlow>, d: AuthFlow)
    ensures PopUntil(s, d) == [] <==> d !in s
  {
    if s != [] && s[|s| - 1] != d {
      var t := s[..|s| - 1];
      PopUntilEmptiesIffAbsent(t, d);
      assert s == t + [s[|s| - 1]];
    }
  }

  /** With `d` already on top, popping until `d` leaves the stack as it is. */
  lemma PopUntilKeepsTop(s: seq<AuthFlow>, d: AuthFlow)
    requires |s| > 0 && s[|s| - 1] == d
    ensures PopUntil(s, d) == s
  {
  }

  class AppRouting {
    /** What the NavigationStack shows; a NavigationPath holding the very
        destinations the router pushes. */
    var navPath: seq<AuthFlow>
    var routeFlow: RouteFlow
    /** The router's own record of the pushed destinations. */
    var stack: seq<AuthFlow>

    /** The stack and the path have the same number of entries. */
    ghost predicate Valid()
      reads this
    {
      |stack| == |navPath|
    }

    constructor ()
      ensures stack == [] && navPath == [] && routeFlow == AuthModule
      ensures Valid()
    {
      navPath := [];
      routeFlow := AuthModule;
      stack := [];
    }

    /** Pushes `destination` on both the stack and the path. */
    method Navigate(destination: AuthFlow)
      modifies this
      ensures stack == old(stack) + [destination]
      ensures navPath == old(navPath) + [destination]
      ensures routeFlow == old(routeFlow)
      ensures old(Valid()) ==> Valid()
    {
      stack := stack + [destination];
      navPath := navPath + [destination];
    }

    /** Pops one destination; on an empty stack nothing happens. Popping an
        empty NavigationPath traps, hence the precondition. */
    method NavigateBack()
      requires stack != [] ==> navPath != []
      modifies this
      ensures old(stack) == [] ==> stack == old(stack) && navPath == old(navPath)
      ensures old(stack) != [] ==> stack == old(stack)[..|old(stack)| - 1]
      ensures old(stack) != [] ==> navPath == old(navPath)[..|old(navPath)| - 1]
      ensures routeFlow == old(routeFlow)
      ensures old(Valid()) ==> Valid()
    {
      if stack == [] {
        return;
      }
      stack := stack[..|stack| - 1];
      navPath := navPath[..|navPath| - 1];
    }

    /** Empties the stack and the path. */
    method NavigateToRoot()
      modifies this
      ensures stack == [] && navPath == []
      ensures routeFlow == old(routeFlow)
      ensures Valid()
    {
      stack := [];
      navPath := navPath[..0];
    }

    /** Pops destinations until `destination` is on top or the stack is
        empty, removing as many entries from the path as from the stack. */
    method NavigateBackTo(destination: AuthFlow)
      requires |stack| - |PopUntil(stack, destination)| <= |navPath|
      modifies this
      ensures stack == PopUntil(old(stack), destination)
      ensures |stack| <= |old(stack)| && |old(stack)| - |stack| <= |old(navPath)|
      ensures navPath == old(navPath)[..|old(navPath)| - (|old(stack)| - |stack|)]
      ensures routeFlow == old(routeFlow)
      ensures old(Valid()) ==> Valid()
    {
      while stack != []
        invariant PopUntil(stack, destination) == PopUntil(old(stack), destination)
        invariant |stack| <= |old(stack)|
        invariant |old(stack)| - |stack| <= |old(navPath)|
        invariant |stack| - |PopUntil(stack, destination)| <= |navPath|
        invariant navPath == old(navPath)[..|old(navPath)| - (|old(stack)| - |stack|)]
        invariant routeFlow == old(routeFlow)
        decreases |stack|
      {
        if stack[|stack| - 1] == destination {
          break;
        }
        PopUntilIsPrefix(stack[..|stack| - 1], destination);
        stack := stack[..|stack| - 1];
        navPath := navPath[..|navPath| - 1];
      }
    }

    /** Switches the top-level flow and returns to the root. */
    method SetRoute(route: RouteFlow)
      modifies this
      ensures routeFlow == route
      ensures stack == [] && navPath == []
    {
      routeFlow := route;
      NavigateToRoot();
    }
  }
}
