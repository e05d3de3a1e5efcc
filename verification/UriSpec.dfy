/** URIs, how they are printed, and what the parser recognizes at each position.

The functions below say where each rule of the grammar ends, greedily and with the
choices in the parser's order. `UriParser` is proved to do exactly this. */
module UriSpec {
  import opened Wrappers

  /** `URI` with its authority. A setter stores its text and raises its flag; setting any
      part of the authority raises the authority flag as well. */
  datatype Uri = Uri(
    scheme: string,
    hasAuthority: bool, hasUserInfo: bool, userInfo: string, host: string, hasPort: bool, port: string,
    path: string, hasQuery: bool, query: string, hasFragment: bool, fragment: string)

  const CLEAR: Uri := Uri("", false, false, "", "", false, "", "", false, "", false, "")

  function SetUserInfo(u: Uri, text: string): Uri { u.(hasAuthority := true, hasUserInfo := true, userInfo := text) }
  function SetHost(u: Uri, text: string): Uri { u.(hasAuthority := true, host := text) }
  function SetPort(u: Uri, text: string): Uri { u.(hasAuthority := true, hasPort := true, port := text) }
  function SetQuery(u: Uri, text: string): Uri { u.(hasQuery := true, query := text) }
  function SetFragment(u: Uri, text: string): Uri { u.(hasFragment := true, fragment := text) }

  function UserInfoText(u: Uri): string { if u.hasUserInfo then u.userInfo + "@" else "" }
  function PortText(u: Uri): string { if u.hasPort then ":" + u.port else "" }
  function SchemeText(u: Uri): string { if u.scheme != "" then u.scheme + ":" else "" }
  function QueryText(u: Uri): string { if u.hasQuery then "?" + u.query else "" }
  function FragmentText(u: Uri): string { if u.hasFragment then "#" + u.fragment else "" }

  function AuthorityText(u: Uri): string {
    if !u.hasAuthority then "" else "//" + UserInfoText(u) + u.host + PortText(u)
  }

  /** `URI::ToString`. */
  function ToString(u: Uri): string {
    SchemeText(u) + AuthorityText(u) + u.path + QueryText(u) + FragmentText(u)
  }

  // ---------------------------------------------------------------------------
  // Characters
  // ---------------------------------------------------------------------------

  predicate IsDigit(c: char) { '0' <= c <= '9' }
  predicate IsAlpha(c: char) { 'a' <= c <= 'z' || 'A' <= c <= 'Z' }
  predicate IsAlphaNum(c: char) { IsAlpha(c) || IsDigit(c) }
  predicate IsHex(c: char) { IsDigit(c) || 'a' <= c <= 'f' || 'A' <= c <= 'F' }
  predicate IsUnreserved(c: char) { IsAlphaNum(c) || c == '-' || c == '.' || c == '_' || c == '~' }
  predicate IsSubDelim(c: char) { c == '!' || c == '$' || '&' <= c <= ',' || c == ';' || c == '=' }
  predicate IsSchemeChar(c: char) { IsAlphaNum(c) || c == '+' || c == '-' || c == '.' }
  predicate IsUserInfoChar(c: char) {
    IsUnreserved(c) || c == ',' || c == ':' || c == '&' || c == '=' || c == '+' || c == '$'
  }
  predicate IsPChar(c: char) {
    IsUnreserved(c) || IsSubDelim(c) || c == ':' || c == '@' || c == '|' || c == '{' || c == '}'
  }
  predicate IsNoColonChar(c: char) { IsUnreserved(c) || IsSubDelim(c) || c == '@' }
  predicate IsQueryChar(c: char) { IsPChar(c) || c == '/' || c == '?' }

  predicate At(s: string, i: nat, c: char) {
    i < |s| && s[i] == c
  }

  predicate AtSet(s: string, i: nat, p: char -> bool) {
    i < |s| && p(s[i])
  }

  /** Length of the escape at `i`: "%XX", "%uXXXX", or none. */
  function Escape(s: string, i: nat): (n: nat)
    ensures n > 0 ==> At(s, i, '%') && i + n <= |s|
  {
    if !At(s, i, '%') || |s| - i <= 2 then 0
    else if IsHex(s[i + 1]) && IsHex(s[i + 2]) then 3
    else if |s| - i > 5 && s[i + 1] == 'u' && IsHex(s[i + 2]) && IsHex(s[i + 3]) && IsHex(s[i + 4]) && IsHex(s[i + 5]) then 6
    else 0
  }

  /** End of the longest run of characters of one set. */
  function Run(s: string, i: nat, p: char -> bool): (j: nat)
    requires i <= |s|
    ensures i <= j <= |s| && !AtSet(s, j, p) && (AtSet(s, i, p) ==> i < j)
    decreases |s| - i
  {
    if AtSet(s, i, p) then Run(s, i + 1, p) else i
  }

  /** End of the longest run of characters of one set and escapes. */
  function RunEscaped(s: string, i: nat, p: char -> bool): (j: nat)
    requires i <= |s|
    ensures i <= j <= |s| && !AtSet(s, j, p) && Escape(s, j) == 0
    ensures i < j ==> AtSet(s, i, p) || At(s, i, '%')
    decreases |s| - i
  {
    if AtSet(s, i, p) then RunEscaped(s, i + 1, p)
    else if Escape(s, i) > 0 then RunEscaped(s, i + Escape(s, i), p)
    else i
  }

  // ---------------------------------------------------------------------------
  // Hosts
  // ---------------------------------------------------------------------------

  /** Rest of a label once an alphanumeric character after hyphens has been seen. Hyphens
      at the very end belong to the label. */
  function LabelMore(s: string, i: nat): (j: nat)
    requires i <= |s|
    ensures i <= j <= |s|
    decreases |s| - i
  {
    var k := Run(s, i, c => c == '-');
    if AtSet(s, k, IsAlphaNum) then LabelMore(s, k + 1) else k
  }

  /** Rest of a label after its first character. Hyphens that no alphanumeric character
      follows do not belong to it. */
  function LabelRest(s: string, i: nat): (j: nat)
    requires i <= |s|
    ensures i <= j <= |s|
  {
    var k := Run(s, i, c => c == '-');
    if AtSet(s, k, IsAlphaNum) then LabelMore(s, k + 1) else i
  }

  function Label(s: string, i: nat, first: char -> bool): (j: Option<nat>)
    requires i <= |s|
    ensures j.Some? ==> i < j.value <= |s|
  {
    if AtSet(s, i, first) then Some(LabelRest(s, i + 1)) else None
  }

  /** End of all labels that a dot follows. */
  function DottedLabels(s: string, i: nat): (j: nat)
    requires i <= |s|
    ensures i <= j <= |s|
    decreases |s| - i
  {
    var l := Label(s, i, IsAlphaNum);
    if l.Some? && At(s, l.value, '.') then DottedLabels(s, l.value + 1) else i
  }

  function HostName(s: string, i: nat): (j: Option<nat>)
    requires i <= |s|
    ensures j.Some? ==> i < j.value <= |s|
  {
    var l := Label(s, DottedLabels(s, i), IsAlpha);
    if l.None? then None else Some(if At(s, l.value, '.') then l.value + 1 else l.value)
  }

  /** The remaining dotted fields of an address; a missing field is skipped. */
  function Ipv4Fields(s: string, i: nat, left: nat): (j: Option<nat>)
    requires i <= |s|
    ensures j.Some? ==> i <= j.value <= |s|
    decreases |s| - i + left
  {
    if left == 0 then Some(i)
    else if !AtSet(s, i, IsDigit) then Ipv4Fields(s, i, left - 1)
    else
      var k := Run(s, i, IsDigit);
      if At(s, k, '.') then Ipv4Fields(s, k + 1, left - 1) else None
  }

  function Ipv4Address(s: string, i: nat): (j: Option<nat>)
    requires i <= |s|
    ensures j.Some? ==> i < j.value <= |s|
  {
    var k := Ipv4Fields(s, i, 3);
    if k.Some? && AtSet(s, k.value, IsDigit) then Some(Run(s, k.value, IsDigit)) else None
  }

  function Host(s: string, i: nat): (j: Option<nat>)
    requires i <= |s|
    ensures j.Some? ==> i < j.value <= |s|
  {
    if HostName(s, i).Some? then HostName(s, i) else Ipv4Address(s, i)
  }

  // ---------------------------------------------------------------------------
  // The parts of a reference
  // ---------------------------------------------------------------------------

  /** Where the parser stands and what it has set so far. */
  datatype Parse = Parse(cur: nat, uri: Uri)

  /** End of the "/segment" sequence. */
  function Segments(s: string, i: nat): (j: nat)
    requires i <= |s|
    ensures i <= j <= |s| && !At(s, j, '/') && (i < j ==> At(s, i, '/'))
    decreases |s| - i
  {
    if At(s, i, '/') then Segments(s, RunEscaped(s, i + 1, IsPChar)) else i
  }

  /** End of path-absolute, path-rootless or path-noscheme after its first slash or segment. */
  function PathAbsolute(s: string, i: nat): (j: Option<nat>)
    requires i <= |s|
    ensures j.Some? ==> i < j.value <= |s| && At(s, i, '/')
    ensures j.None? <==> !At(s, i, '/')
  {
    if !At(s, i, '/') then None else
    var k := RunEscaped(s, i + 1, IsPChar);
    Some(if k > i + 1 then Segments(s, k) else k)
  }

  /** End of a path that begins with a non-empty segment of characters of `p`. */
  function PathFrom(s: string, i: nat, p: char -> bool): (j: Option<nat>)
    requires i <= |s|
    ensures j.Some? ==> i < j.value <= |s| && (AtSet(s, i, p) || At(s, i, '%'))
  {
    var k := RunEscaped(s, i, p);
    if k > i then Some(Segments(s, k)) else None
  }

  /** An '@' comes before the next '/'. */
  predicate MayContainUserInfo(s: string, i: nat)
    requires i <= |s|
    decreases |s| - i
  {
    i < |s| && (s[i] == '@' || (s[i] != '/' && MayContainUserInfo(s, i + 1)))
  }

  function UserInfo(s: string, st: Parse): (r: Parse)
    requires st.cur <= |s|
    ensures st.cur <= r.cur <= |s|
  {
    var k := RunEscaped(s, st.cur, IsUserInfoChar);
    if MayContainUserInfo(s, st.cur) && At(s, k, '@')
    then Parse(k + 1, SetUserInfo(st.uri, s[st.cur..k])) else st
  }

  function Port(s: string, st: Parse): (r: Parse)
    requires st.cur <= |s|
    ensures st.cur <= r.cur <= |s|
  {
    if !At(s, st.cur, ':') then st else
    var k := Run(s, st.cur + 1, IsDigit);
    Parse(k, SetPort(st.uri, s[st.cur + 1..k]))
  }

  function HostAndPort(s: string, u: Parse): (r: (bool, Parse))
    requires u.cur <= |s|
    ensures u.cur <= r.1.cur <= |s|
  {
    var h := Host(s, u.cur);
    if h.None? then (false, u)
    else (true, Port(s, Parse(h.value, SetHost(u.uri, s[u.cur..h.value]))))
  }

  /** An authority that fails has possibly set the user info, and that stays. */
  function Authority(s: string, st: Parse): (r: (bool, Parse))
    requires st.cur <= |s|
    ensures st.cur <= r.1.cur <= |s|
  {
    HostAndPort(s, UserInfo(s, st))
  }

  /** The path after an authority; without one the cursor goes back to `begin`. */
  function PathAfter(s: string, begin: nat, a: (bool, Parse)): (r: (bool, Parse))
    requires begin <= a.1.cur <= |s|
    ensures begin <= r.1.cur <= |s|
    ensures !r.0 ==> r.1.cur == begin
  {
    if !a.0 then (false, a.1.(cur := begin)) else
    var k := Segments(s, a.1.cur);
    (true, Parse(k, a.1.uri.(path := s[a.1.cur..k])))
  }

  /** "//" authority path-abempty. On failure the cursor is back where it was. */
  function NetPath(s: string, st: Parse): (r: (bool, Parse))
    requires st.cur <= |s|
    ensures st.cur <= r.1.cur <= |s|
    ensures !r.0 ==> r.1.cur == st.cur
  {
    if !(At(s, st.cur, '/') && At(s, st.cur + 1, '/')) then (false, st)
    else PathAfter(s, st.cur, Authority(s, st.(cur := st.cur + 2)))
  }

  /** The paths without authority; `p` are the characters of the first segment of a path
      that does not begin with a slash. */
  function LocalPath(s: string, st: Parse, p: char -> bool): (r: Parse)
    requires st.cur <= |s|
    ensures st.cur <= r.cur <= |s|
  {
    var a := PathAbsolute(s, st.cur);
    var f := PathFrom(s, st.cur, p);
    var k := if a.Some? then a.value else if f.Some? then f.value else st.cur;
    Parse(k, st.uri.(path := s[st.cur..k]))
  }

  /** hier-part. After a path without authority the cursor goes back to where it began. */
  function HierPart(s: string, st: Parse): (r: Parse)
    requires st.cur <= |s|
    ensures st.cur <= r.cur <= |s|
  {
    var n := NetPath(s, st);
    if n.0 then n.1 else LocalPath(s, n.1, IsPChar).(cur := st.cur)
  }

  function RelativePart(s: string, st: Parse): (r: Parse)
    requires st.cur <= |s|
    ensures st.cur <= r.cur <= |s|
  {
    var n := NetPath(s, st);
    if n.0 then n.1 else LocalPath(s, n.1, IsNoColonChar)
  }

  function Query(s: string, st: Parse): (r: Parse)
    requires st.cur <= |s|
    ensures st.cur <= r.cur <= |s|
  {
    if !At(s, st.cur, '?') then st else
    var k := RunEscaped(s, st.cur + 1, IsQueryChar);
    Parse(k, SetQuery(st.uri, s[st.cur + 1..k]))
  }

  function Fragment(s: string, st: Parse): (r: Parse)
    requires st.cur <= |s|
    ensures st.cur <= r.cur <= |s|
  {
    if !At(s, st.cur, '#') then st else
    var k := RunEscaped(s, st.cur + 1, IsQueryChar);
    Parse(k, SetFragment(st.uri, s[st.cur + 1..k]))
  }

  /** End of the scheme, where its colon stands. */
  function SchemeEnd(s: string): (k: Option<nat>)
    ensures k.Some? ==> 0 < k.value < |s| && s[k.value] == ':'
  {
    if !AtSet(s, 0, IsAlpha) then None else
    var k := Run(s, 1, IsSchemeChar);
    if At(s, k, ':') then Some(k) else None
  }

  /** `ParseBuffer` on a whole string: how far it got and what it set. */
  function ParseReference(s: string): (r: Parse)
    ensures r.cur <= |s|
  {
    var k := SchemeEnd(s);
    if k.Some? then
      Fragment(s, Query(s, HierPart(s, Parse(k.value + 1, CLEAR.(scheme := s[..k.value])))))
    else
      Query(s, RelativePart(s, Parse(0, CLEAR)))
  }

  /** `URI::Parse`. */
  predicate Parses(s: string) {
    ParseReference(s).cur == |s|
  }

  // ---------------------------------------------------------------------------
  // Printing gives the parsed text back
  // ---------------------------------------------------------------------------

  /** Exactly the consumed text has been turned into components. */
  ghost predicate Faithful(s: string, st: Parse) {
    st.cur <= |s| && ToString(st.uri) == s[..st.cur]
  }

  /** No query or fragment has been seen yet. */
  predicate NoSuffix(u: Uri) { !u.hasQuery && !u.hasFragment }

  /** The rest of the text can not be reached any more. */
  predicate Stuck(s: string, st: Parse) {
    st.cur < |s| && s[st.cur] != '?' && s[st.cur] != '#'
  }

  lemma Joined(s: string, i: nat, j: nat, k: nat)
    requires i <= j <= k <= |s|
    ensures s[i..j] + s[j..k] == s[i..k]
  {
  }

  lemma Regrouped(a: string, b: string, c: string)
    ensures a + b + c == a + (b + c)
  {
  }

  lemma SliceSnoc(s: string, i: nat, k: nat, c: char)
    requires i <= k && At(s, k, c)
    ensures s[i..k] + [c] == s[i..k + 1]
  {
  }

  lemma SliceCons(s: string, i: nat, k: nat, c: char)
    requires i < k <= |s| && At(s, i, c)
    ensures [c] + s[i + 1..k] == s[i..k]
  {
  }

  lemma UserInfoIs(s: string, st: Parse) returns (k: nat)
    requires st.cur <= |s|
    ensures st.cur <= k <= |s|
    ensures UserInfo(s, st) == st || (At(s, k, '@') && UserInfo(s, st) == Parse(k + 1, SetUserInfo(st.uri, s[st.cur..k])))
  {
    k := RunEscaped(s, st.cur, IsUserInfoChar);
  }

  lemma UserInfoPrints(s: string, st: Parse)
    requires st.cur <= |s| && !st.uri.hasUserInfo
    ensures var u := UserInfo(s, st);
            && UserInfoText(u.uri) == s[st.cur..u.cur]
            && u.uri == st.uri.(hasAuthority := u.uri.hasAuthority, hasUserInfo := u.uri.hasUserInfo, userInfo := u.uri.userInfo)
  {
    var k := UserInfoIs(s, st);
    if At(s, k, '@') && UserInfo(s, st) != st {
      SliceSnoc(s, st.cur, k, '@');
    }
  }

  lemma PortPrints(s: string, st: Parse)
    requires st.cur <= |s| && !st.uri.hasPort && st.uri.hasAuthority
    ensures var p := Port(s, st);
            PortText(p.uri) == s[st.cur..p.cur] && p.uri == st.uri.(hasPort := p.uri.hasPort, port := p.uri.port)
  {
    var p := Port(s, st);
    if p.uri.hasPort {
      SliceCons(s, st.cur, p.cur, ':');
    }
  }

  /** Three adjacent pieces of the text, printed one after the other. */
  lemma Pieces(s: string, a: nat, b: nat, c: nat, d: nat)
    requires a <= b <= c <= d <= |s|
    ensures "//" + s[a..b] + s[b..c] + s[c..d] == "//" + s[a..d]
  {
    Regrouped("//", s[a..b], s[b..c]);
    Joined(s, a, b, c);
    Regrouped("//", s[a..c], s[c..d]);
    Joined(s, a, c, d);
  }

  /** A matched authority prints as the text between "//" and its end. */
  lemma AuthorityPrints(s: string, st: Parse)
    requires st.cur <= |s| && !st.uri.hasUserInfo && !st.uri.hasPort && Authority(s, st).0
    ensures var r := Authority(s, st).1;
            && AuthorityText(r.uri) == "//" + s[st.cur..r.cur]
            && r.uri.scheme == st.uri.scheme && r.uri.path == st.uri.path
            && r.uri.hasQuery == st.uri.hasQuery && r.uri.hasFragment == st.uri.hasFragment && r.uri.hasAuthority
  {
    var u := UserInfo(s, st);
    var h := Host(s, u.cur).value;
    var g := Parse(h, SetHost(u.uri, s[u.cur..h]));
    UserInfoPrints(s, st);
    PortPrints(s, g);
    Pieces(s, st.cur, u.cur, h, Port(s, g).cur);
  }

  lemma NetPathIs(s: string, st: Parse)
    requires At(s, st.cur, '/') && At(s, st.cur + 1, '/')
    ensures NetPath(s, st) == PathAfter(s, st.cur, Authority(s, st.(cur := st.cur + 2)))
  {
  }

  lemma LabelRestIs(s: string, i: nat)
    requires i <= |s|
    ensures var k := Run(s, i, c => c == '-');
            && LabelRest(s, i) == (if AtSet(s, k, IsAlphaNum) then LabelMore(s, k + 1) else i)
            && LabelMore(s, i) == (if AtSet(s, k, IsAlphaNum) then LabelMore(s, k + 1) else k)
  {
  }

  lemma QueryIs(s: string, st: Parse)
    requires st.cur <= |s|
    ensures !At(s, st.cur, '?') ==> Query(s, st) == st
    ensures At(s, st.cur, '?') ==>
      var k := RunEscaped(s, st.cur + 1, IsQueryChar);
      Query(s, st) == Parse(k, SetQuery(st.uri, s[st.cur + 1..k]))
  {
  }

  lemma FragmentIs(s: string, st: Parse)
    requires st.cur <= |s|
    ensures !At(s, st.cur, '#') ==> Fragment(s, st) == st
    ensures At(s, st.cur, '#') ==>
      var k := RunEscaped(s, st.cur + 1, IsQueryChar);
      Fragment(s, st) == Parse(k, SetFragment(st.uri, s[st.cur + 1..k]))
  {
  }

  /** What printing gives before a query or a fragment is set. */
  lemma PrintsWithoutSuffix(u: Uri)
    requires NoSuffix(u)
    ensures ToString(u) == SchemeText(u) + AuthorityText(u) + u.path
  {
  }

  ghost predicate Fresh(st: Parse) {
    st.uri == CLEAR.(scheme := st.uri.scheme)
  }

  lemma FreshPrints(st: Parse)
    requires Fresh(st)
    ensures ToString(st.uri) == SchemeText(st.uri)
  {
  }

  lemma NetText(s: string, i: nat, a: nat, r: nat)
    requires i + 2 <= a <= r <= |s| && s[i] == '/' && s[i + 1] == '/'
    ensures s[..i] + ("//" + s[i + 2..a]) + s[a..r] == s[..r]
  {
    assert s[i..i + 2] == "//";
    Joined(s, i, i + 2, a);
    Joined(s, 0, i, a);
    Joined(s, 0, a, r);
  }

  lemma NetPrints(st: Parse, a: Uri, path: string)
    requires Fresh(st) && NoSuffix(a) && a.scheme == st.uri.scheme
    ensures ToString(a.(path := path)) == ToString(st.uri) + AuthorityText(a) + path
  {
    FreshPrints(st);
    PrintsWithoutSuffix(a.(path := path));
    assert AuthorityText(a.(path := path)) == AuthorityText(a);
  }

  lemma PathAfterParts(s: string, begin: nat, a: (bool, Parse))
    requires begin <= a.1.cur <= |s|
    ensures var r := PathAfter(s, begin, a);
            r.0 == a.0 && (r.0 ==> a.1.cur <= r.1.cur && r.1.uri == a.1.uri.(path := s[a.1.cur..r.1.cur]))
  {
  }

  lemma NetPathBegins(s: string, st: Parse)
    requires st.cur <= |s| && NetPath(s, st).0
    ensures st.cur + 2 <= |s| && s[st.cur] == '/' && s[st.cur + 1] == '/'
  {
  }

  lemma NetPathFaithful(s: string, st: Parse)
    requires Faithful(s, st) && Fresh(st) && NetPath(s, st).0
    ensures Faithful(s, NetPath(s, st).1) && NoSuffix(NetPath(s, st).1.uri) && NetPath(s, st).1.uri.hasAuthority
    ensures NetPath(s, st).1.uri.scheme == st.uri.scheme
  {
    NetPathBegins(s, st);
    var b := st.(cur := st.cur + 2);
    var a := Authority(s, b);
    PathAfterParts(s, st.cur, a);
    var r := PathAfter(s, st.cur, a).1;
    assert NetPath(s, st) == PathAfter(s, st.cur, a);
    AuthorityPrints(s, b);
    NetPrints(st, a.1.uri, r.uri.path);
    NetText(s, st.cur, a.1.cur, r.cur);
  }

  /** Text that begins with "//" but has no authority leaves the parser stuck at a slash. */
  lemma NetPathFails(s: string, st: Parse)
    requires st.cur <= |s| && !NetPath(s, st).0
    ensures NetPath(s, st).1.cur == st.cur
    ensures NetPath(s, st).1 == st || (At(s, st.cur, '/') && At(s, st.cur + 1, '/'))
  {
  }

  lemma PathFaithful(s: string, st: Parse, k: nat)
    requires Faithful(s, st) && Fresh(st) && st.cur <= k <= |s|
    ensures Faithful(s, Parse(k, st.uri.(path := s[st.cur..k])))
  {
    var u := st.uri.(path := s[st.cur..k]);
    Joined(s, 0, st.cur, k);
    FreshPrints(st);
    PrintsWithoutSuffix(u);
    assert SchemeText(u) + AuthorityText(u) == SchemeText(u);
  }

  /** Whatever a path without authority consists of, the cursor stays in front of it. */
  lemma HierLocalFaithful(s: string, st: Parse, u: Parse)
    requires Faithful(s, st) && Fresh(st) && u.cur == st.cur
    requires u == st || At(s, st.cur, '/')
    ensures var r := LocalPath(s, u, IsPChar).(cur := st.cur);
            Stuck(s, r) || (u == st && Faithful(s, r) && r.uri == st.uri.(path := ""))
  {
    var l := LocalPath(s, u, IsPChar);
    if l.cur == st.cur {
      PathFaithful(s, st, st.cur);
    }
  }

  /** Either the text consumed so far is printed, or the rest can not be reached any more:
      what an abandoned alternative has set survives only in the second case. */
  lemma HierPartFaithful(s: string, st: Parse)
    requires Faithful(s, st) && Fresh(st)
    ensures var r := HierPart(s, st);
            && NoSuffix(r.uri) && r.uri.scheme == st.uri.scheme
            && (Stuck(s, r) || (Faithful(s, r) && (r.uri.hasAuthority || r.uri.path == "")))
  {
    var n := NetPath(s, st);
    if n.0 {
      NetPathFaithful(s, st);
    } else {
      NetPathFails(s, st);
      HierLocalFaithful(s, st, n.1);
    }
  }

  /** A path can not begin with two slashes: nothing but the first one is consumed. */
  lemma DoubleSlashStuck(s: string, u: Parse)
    requires u.cur <= |s| && At(s, u.cur, '/') && At(s, u.cur + 1, '/')
    ensures Stuck(s, LocalPath(s, u, IsNoColonChar))
    ensures NoSuffix(u.uri) ==> NoSuffix(LocalPath(s, u, IsNoColonChar).uri)
  {
    assert RunEscaped(s, u.cur + 1, IsPChar) == u.cur + 1;
  }

  lemma RelativePartFaithful(s: string, st: Parse)
    requires Faithful(s, st) && Fresh(st)
    ensures NoSuffix(RelativePart(s, st).uri)
    ensures Stuck(s, RelativePart(s, st)) || Faithful(s, RelativePart(s, st))
  {
    var n := NetPath(s, st);
    if n.0 {
      NetPathFaithful(s, st);
    } else {
      NetPathFails(s, st);
      var l := LocalPath(s, n.1, IsNoColonChar);
      if n.1 == st {
        PathFaithful(s, st, l.cur);
      } else {
        DoubleSlashStuck(s, n.1);
      }
    }
  }

  lemma QueryPrints(s: string, st: Parse, k: nat)
    requires Faithful(s, st) && NoSuffix(st.uri) && At(s, st.cur, '?') && st.cur < k <= |s|
    ensures Faithful(s, Parse(k, SetQuery(st.uri, s[st.cur + 1..k])))
  {
    var u := SetQuery(st.uri, s[st.cur + 1..k]);
    assert QueryText(u) == s[st.cur..k];
    Joined(s, 0, st.cur, k);
    PrintsWithoutSuffix(st.uri);
    assert ToString(u) == SchemeText(u) + AuthorityText(u) + u.path + QueryText(u);
  }

  lemma FragmentPrints(s: string, st: Parse, k: nat)
    requires Faithful(s, st) && !st.uri.hasFragment && At(s, st.cur, '#') && st.cur < k <= |s|
    ensures Faithful(s, Parse(k, SetFragment(st.uri, s[st.cur + 1..k])))
  {
    var u := SetFragment(st.uri, s[st.cur + 1..k]);
    assert FragmentText(u) == s[st.cur..k];
    Joined(s, 0, st.cur, k);
    assert ToString(st.uri) == SchemeText(u) + AuthorityText(u) + u.path + QueryText(u);
  }

  lemma QueryFaithful(s: string, st: Parse)
    requires st.cur <= |s| && NoSuffix(st.uri)
    ensures Stuck(s, st) ==> Query(s, st) == st
    ensures Faithful(s, st) ==> Faithful(s, Query(s, st))
    ensures !Query(s, st).uri.hasFragment
    ensures Query(s, st).uri.hasAuthority == st.uri.hasAuthority && Query(s, st).uri.path == st.uri.path
  {
    if At(s, st.cur, '?') && Faithful(s, st) {
      QueryPrints(s, st, Query(s, st).cur);
    }
  }

  lemma FragmentFaithful(s: string, st: Parse)
    requires st.cur <= |s| && !st.uri.hasFragment
    ensures Stuck(s, st) ==> Fragment(s, st) == st
    ensures Faithful(s, st) ==> Faithful(s, Fragment(s, st))
    ensures Fragment(s, st).uri.hasAuthority == st.uri.hasAuthority && Fragment(s, st).uri.path == st.uri.path
  {
    if At(s, st.cur, '#') && Faithful(s, st) {
      FragmentPrints(s, st, Fragment(s, st).cur);
    }
  }

  /** After the scheme nothing but the scheme has been set. */
  lemma SchemeFaithful(s: string)
    requires SchemeEnd(s).Some?
    ensures var k := SchemeEnd(s).value; Faithful(s, Parse(k + 1, CLEAR.(scheme := s[..k])))
  {
    var k := SchemeEnd(s).value;
    FreshPrints(Parse(k + 1, CLEAR.(scheme := s[..k])));
  }

  lemma WithSchemeFaithful(s: string)
    requires SchemeEnd(s).Some?
    ensures Parses(s) ==> Faithful(s, ParseReference(s))
  {
    var k := SchemeEnd(s);
    var st := Parse(k.value + 1, CLEAR.(scheme := s[..k.value]));
    SchemeFaithful(s);
    var h := HierPart(s, st);
    HierPartFaithful(s, st);
    QueryFaithful(s, h);
    FragmentFaithful(s, Query(s, h));
  }

  lemma WithoutSchemeFaithful(s: string)
    requires SchemeEnd(s).None?
    ensures Parses(s) ==> Faithful(s, ParseReference(s))
  {
    assert Faithful(s, Parse(0, CLEAR));
    var h := RelativePart(s, Parse(0, CLEAR));
    RelativePartFaithful(s, Parse(0, CLEAR));
    QueryFaithful(s, h);
  }

  /** The round trip: whatever parses completely is printed back exactly. */
  lemma ParseThenPrint(s: string)
    ensures Parses(s) ==> ToString(ParseReference(s).uri) == s
  {
    if SchemeEnd(s).Some? {
      WithSchemeFaithful(s);
    } else {
      WithoutSchemeFaithful(s);
    }
    assert s[..|s|] == s;
  }

  /** A consequence of the rollback after a path: with a scheme, only an authority or an
      empty path parses completely, although the grammar allows more. */
  lemma SchemeNeedsAuthorityOrEmptyPath(s: string)
    requires SchemeEnd(s).Some?
    ensures Parses(s) ==> ParseReference(s).uri.hasAuthority || ParseReference(s).uri.path == ""
  {
    var k := SchemeEnd(s).value;
    var st := Parse(k + 1, CLEAR.(scheme := s[..k]));
    SchemeFaithful(s);
    HierPartFaithful(s, st);
    QueryFaithful(s, HierPart(s, st));
    FragmentFaithful(s, Query(s, HierPart(s, st)));
  }
}
