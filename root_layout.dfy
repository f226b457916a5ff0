/**
 * The sign-in guard of the root layout (app/_layout.tsx): whenever the
 * authentication state or the route changes, it decides whether to replace
 * the current route. The router call itself is left out; the decision is
 * returned as a value.
 */
module RootLayout {

  datatype Redirect = NoRedirect | ReplaceWith(href: string)

  /** `segments[0] === "(auth)"`; an empty segment list is outside the group. */
  predicate InAuthGroup(segments: seq<string>)
    ensures segments == [] ==> !InAuthGroup(segments)
    ensures InAuthGroup(segments) <==> ["(auth)"] <= segments
  {
    |segments| > 0 && segments[0] == "(auth)"
  }

  /**
   * Nothing happens while the auth state is loading. Afterwards a signed-out
   * user outside the "(auth)" group is sent to "/login", a signed-in user
   * inside it is sent to "/", and everyone else stays where they are.
   */
  function RedirectFor(loading: bool, signedIn: bool, segments: seq<string>): (r: Redirect)
    ensures loading ==> r == NoRedirect
    ensures r == ReplaceWith("/login") <==> !loading && !signedIn && !InAuthGroup(segments)
    ensures r == ReplaceWith("/") <==> !loading && signedIn && InAuthGroup(segments)
    ensures r == NoRedirect <==> loading || signedIn != InAuthGroup(segments)
    ensures r.ReplaceWith? ==> r.href == "/login" || r.href == "/"
  {
    if loading then NoRedirect
    else if !signedIn && !InAuthGroup(segments) then ReplaceWith("/login")
    else if signedIn && InAuthGroup(segments) then ReplaceWith("/")
    else NoRedirect
  }

  /** A signed-out user is never sent home and a signed-in user is never sent to the login screen. */
  lemma NeverWrongWay(loading: bool, signedIn: bool, segments: seq<string>)
    ensures !signedIn ==> RedirectFor(loading, signedIn, segments) != ReplaceWith("/")
    ensures signedIn ==> RedirectFor(loading, signedIn, segments) != ReplaceWith("/login")
  {
  }

  /**
   * The first route segments the two targets land on in the file-based route
   * tree: "/login" is app/(auth)/login.tsx, "/" is app/(tabs)/index.tsx.
   */
  function SegmentsOf(href: string): seq<string> {
    if href == "/login" then ["(auth)", "login"] else ["(tabs)"]
  }

  /**
   * A redirect does not bounce: once the router has moved to the target, the
   * same auth state asks for no further redirect.
   */
  lemma RedirectSettles(loading: bool, signedIn: bool, segments: seq<string>)
    requires RedirectFor(loading, signedIn, segments).ReplaceWith?
    ensures RedirectFor(loading, signedIn, SegmentsOf(RedirectFor(loading, signedIn, segments).href)) == NoRedirect
  {
  }
}
