/** Exactly which texts parse completely. The grammar of `UriGrammar` is met in both directions, and
what the parser leaves out of the grammar in its comments is said on the text. */
module UriLanguage {
  import opened UriGrammar
  import opened UriSpec
  import opened Wrappers

  // ---------------------------------------------------------------------------
  // Relative references of the grammar
  // ---------------------------------------------------------------------------

  predicate PathStops(s: string, j: nat) {
    j >= |s| || s[j] == '?' || s[j] == '#'
  }

  lemma TailStops(s: string, j: nat, k: nat)
    requires IsTail(s, j, k)
    ensures j <= k && PathStops(s, j)
  {
  }

  lemma PathContinues(s: string, k: nat, j: nat)
    requires IsPath(s, k, j) && PathStops(s, j)
    ensures k <= j && (At(s, k, '/') || PathStops(s, k))
  {
  }

  lemma TextBegins(s: string, i: nat, k: nat, p: char -> bool)
    requires i < k && IsText(s, i, k, p)
    ensures i < |s| && (p(s[i]) || s[i] == '%')
  {
  }

  /** Segments are found with any of the two sets for the first one. */
  lemma FirstSegmentFinds(s: string, i: nat, j: nat, p: char -> bool) returns (k: nat)
    requires IsSegments(s, i, j, p) && PathStops(s, j) && !p('%') && !p('/') && !p('?') && !p('#')
    ensures i < k <= j <= |s| && (p(s[i]) || s[i] == '%') && IsText(s, i, k, p)
    ensures RunEscaped(s, i, p) == k && Segments(s, k) == j && (At(s, k, '/') || PathStops(s, k))
  {
    k :| i < k <= j && IsText(s, i, k, p) && IsPath(s, k, j);
    TextBegins(s, i, k, p);
    PathContinues(s, k, j);
    RunEscapedFinds(s, i, k, p);
    SegmentsFind(s, k, j);
  }

  lemma NoNetPath(s: string, st: Parse)
    requires st.cur <= |s| && !TwoSlashes(s, st.cur)
    ensures NetPath(s, st) == (false, st)
  {
  }

  lemma AbsoluteFinds(s: string, j: nat)
    requires At(s, 0, '/') && (j == 1 || IsSegments(s, 1, j, IsPChar)) && PathStops(s, j)
    ensures j <= |s| && !TwoSlashes(s, 0) && PathAbsolute(s, 0) == Some(j)
  {
    if j == 1 {
      assert RunEscaped(s, 1, IsPChar) == 1;
    } else {
      var k := FirstSegmentFinds(s, 1, j, IsPChar);
    }
  }

  lemma {:induction false} SchemeRunStays(s: string, i: nat, k: nat)
    requires i <= k <= |s| && (At(s, k, '/') || PathStops(s, k))
    ensures Run(s, i, IsSchemeChar) <= k
    decreases k - i
  {
    if i < k && IsSchemeChar(s[i]) {
      SchemeRunStays(s, i + 1, k);
    }
  }

  /** The colon of a scheme can not come before the end of the first segment, nor right at it. */
  lemma NoColonNoScheme(s: string, k: nat)
    requires 0 < k <= |s| && (At(s, k, '/') || PathStops(s, k)) && forall n :: 0 <= n < k ==> s[n] != ':'
    ensures SchemeEnd(s) == None
  {
    SchemeRunStays(s, 1, k);
  }

  lemma NoSchemeFinds(s: string, j: nat)
    requires IsSegments(s, 0, j, IsNoColonChar) && PathStops(s, j)
    ensures j <= |s| && !At(s, 0, '/') && PathFrom(s, 0, IsNoColonChar) == Some(j)
  {
    var k := FirstSegmentFinds(s, 0, j, IsNoColonChar);
  }

  lemma NoSchemeThere(s: string, j: nat)
    requires IsSegments(s, 0, j, IsNoColonChar) && PathStops(s, j)
    ensures SchemeEnd(s) == None
  {
    var k :| 0 < k <= j && IsText(s, 0, k, IsNoColonChar) && IsPath(s, k, j);
    TextHasNo(s, 0, k, IsNoColonChar, ':');
    PathContinues(s, k, j);
    NoColonNoScheme(s, k);
  }

  const START: Parse := Parse(0, CLEAR)

  lemma LocalFinds(s: string, j: nat)
    requires IsLocalPath(s, j) && PathStops(s, j)
    ensures j <= |s| && SchemeEnd(s) == None && !TwoSlashes(s, 0)
    ensures LocalPath(s, START, IsNoColonChar) == Parse(j, CLEAR.(path := s[..j]))
  {
    if j == 0 {
      assert RunEscaped(s, 0, IsNoColonChar) == 0;
    } else if At(s, 0, '/') && (j == 1 || IsSegments(s, 1, j, IsPChar)) {
      AbsoluteFinds(s, j);
    } else {
      NoSchemeFinds(s, j);
      NoSchemeThere(s, j);
    }
    assert s[0..j] == s[..j];
  }

  lemma RelativeIs(s: string)
    requires SchemeEnd(s) == None
    ensures ParseReference(s) == Query(s, RelativePart(s, START))
  {
  }

  lemma RelativeLocal(s: string)
    requires !TwoSlashes(s, 0)
    ensures RelativePart(s, START) == LocalPath(s, START, IsNoColonChar)
  {
    NoNetPath(s, START);
  }

  lemma RelativeNet(s: string)
    requires NetPath(s, START).0
    ensures RelativePart(s, START) == NetPath(s, START).1
  {
  }

  /** A relative reference without authority parses completely exactly if it has no fragment. */
  lemma LocalRefParses(s: string, j: nat, k: nat)
    requires IsLocalRef(s, j, k)
    ensures j <= k <= |s| && (Parses(s) <==> k == |s|)
    ensures ParseReference(s).uri == WithQuery(s, CLEAR.(path := s[..j]), j, k)
  {
    TailStops(s, j, k);
    LocalFinds(s, j);
    RelativeLocal(s);
    RelativeIs(s);
    QueryEnds(s, Parse(j, CLEAR.(path := s[..j])), k);
  }

  lemma NetRefIs(s: string)
    requires NetPath(s, START).0
    ensures ParseReference(s) == Query(s, NetPath(s, START).1)
  {
    NetPathBegins(s, START);
    RelativeNet(s);
    RelativeIs(s);
  }

  lemma NetRefHead(s: string, c: Cuts) returns (h: Parse)
    requires IsNetRef(s, c)
    ensures Within(s, c) && c.port <= c.path <= |s| && h.cur == c.path
    ensures h.uri == WithHost(s, c, CLEAR).(path := s[c.port..c.path])
    ensures ParseReference(s) == Query(s, h)
  {
    NetPathFinds(s, c, START);
    NetRefIs(s);
    h := NetPath(s, START).1;
  }

  lemma QueryEnds(s: string, h: Parse, k: nat)
    requires h.cur <= |s| && IsTail(s, h.cur, k)
    ensures h.cur <= k <= |s|
    ensures Query(s, h).cur == k && Query(s, h).uri == WithQuery(s, h.uri, h.cur, k)
  {
    QueryFinds(s, h, k);
  }

  /** So does one with an authority. */
  lemma NetRefParses(s: string, c: Cuts)
    requires IsNetRef(s, c)
    ensures Within(s, c) && c.port <= c.path <= c.query <= |s|
    ensures Parses(s) <==> c.query == |s|
    ensures Parses(s) ==> ParseReference(s).uri == Components(s, c)
  {
    var h := NetRefHead(s, c);
    QueryEnds(s, h, c.query);
    ComponentsAre(s, c);
    assert c.query == |s| ==> Query(s, h).uri == Components(s, c);
  }

  // ---------------------------------------------------------------------------
  // What the rules take is of the grammar
  // ---------------------------------------------------------------------------

  lemma {:induction false} RunTakes(s: string, i: nat, p: char -> bool)
    requires i <= |s|
    ensures AllIn(s, i, Run(s, i, p), p)
    decreases |s| - i
  {
    if AtSet(s, i, p) {
      RunTakes(s, i + 1, p);
    }
  }

  lemma {:induction false} RunEscapedTakes(s: string, i: nat, p: char -> bool)
    requires i <= |s|
    ensures IsText(s, i, RunEscaped(s, i, p), p)
    decreases |s| - i
  {
    if AtSet(s, i, p) {
      RunEscapedTakes(s, i + 1, p);
    } else if Escape(s, i) > 0 {
      EscapeExactlyWhen(s, i);
      RunEscapedTakes(s, i + Escape(s, i), p);
    }
  }

  lemma {:induction false} LabelMoreTakes(s: string, i: nat)
    requires i <= |s|
    ensures AllIn(s, i, LabelMore(s, i), IsLabelChar)
    decreases |s| - i
  {
    var k := Run(s, i, c => c == '-');
    RunTakes(s, i, c => c == '-');
    if AtSet(s, k, IsAlphaNum) {
      LabelMoreTakes(s, k + 1);
    }
  }

  lemma LabelTakes(s: string, i: nat, first: char -> bool)
    requires i <= |s| && Label(s, i, first).Some? && (forall c :: first(c) ==> IsAlphaNum(c))
    ensures IsLabel(s, i, Label(s, i, first).value) && first(s[i])
  {
    var k := Run(s, i + 1, c => c == '-');
    RunTakes(s, i + 1, c => c == '-');
    if AtSet(s, k, IsAlphaNum) {
      LabelMoreTakes(s, k + 1);
    }
  }

  lemma {:induction false} DottedTakes(s: string, i: nat)
    requires i <= |s|
    ensures IsLabels(s, i, DottedLabels(s, i))
    decreases |s| - i
  {
    var l := Label(s, i, IsAlphaNum);
    if l.Some? && At(s, l.value, '.') {
      LabelTakes(s, i, IsAlphaNum);
      DottedTakes(s, l.value + 1);
    }
  }

  lemma HostNameTakes(s: string, i: nat)
    requires i <= |s| && HostName(s, i).Some?
    ensures IsHostName(s, i, HostName(s, i).value)
  {
    FinalDotNeverTaken(s, i);
    DottedTakes(s, i);
    LabelTakes(s, DottedLabels(s, i), IsAlpha);
  }

  /** A field that is skipped leaves no digit for the last one. */
  lemma {:induction false} SkippedFields(s: string, i: nat, left: nat)
    requires i <= |s| && !AtSet(s, i, IsDigit)
    ensures Ipv4Fields(s, i, left) == Some(i)
    decreases left
  {
    if left > 0 {
      SkippedFields(s, i, left - 1);
    }
  }

  lemma {:induction false} FieldsTake(s: string, i: nat, left: nat)
    requires i <= |s| && Ipv4Fields(s, i, left).Some? && AtSet(s, Ipv4Fields(s, i, left).value, IsDigit)
    ensures IsDotted(s, i, Run(s, Ipv4Fields(s, i, left).value, IsDigit), left)
    decreases left
  {
    if !AtSet(s, i, IsDigit) {
      SkippedFields(s, i, left);
    } else {
      RunTakes(s, i, IsDigit);
      if left > 0 {
        FieldsTake(s, Run(s, i, IsDigit) + 1, left - 1);
      }
    }
  }

  lemma HostTakes(s: string, i: nat)
    requires i <= |s| && Host(s, i).Some?
    ensures IsHost(s, i, Host(s, i).value)
  {
    if HostName(s, i).Some? {
      HostNameTakes(s, i);
    } else {
      FieldsTake(s, i, 3);
    }
  }

  lemma {:induction false} SegmentsTake(s: string, i: nat)
    requires i <= |s|
    ensures IsPath(s, i, Segments(s, i))
    decreases |s| - i
  {
    if At(s, i, '/') {
      RunEscapedTakes(s, i + 1, IsPChar);
      SegmentsTake(s, RunEscaped(s, i + 1, IsPChar));
    }
  }

  // ---------------------------------------------------------------------------
  // The cuts of what was parsed
  // ---------------------------------------------------------------------------

  lemma UserTakes(s: string, b: Parse) returns (user: Option<nat>)
    requires 2 <= b.cur <= |s|
    ensures IsUser(s, b.cur - 2, user) && HostAt(b.cur - 2, user) == UserInfo(s, b).cur
  {
    RunEscapedTakes(s, b.cur, IsUserInfoChar);
    var u := UserInfo(s, b).cur;
    user := if b.cur < u then Some(u - 1) else None;
  }

  lemma PortTakes(s: string, st: Parse)
    requires st.cur <= |s|
    ensures IsPort(s, st.cur, Port(s, st).cur)
  {
    if At(s, st.cur, ':') {
      RunTakes(s, st.cur + 1, IsDigit);
    }
  }

  lemma HostAndPortTake(s: string, u: Parse) returns (h: nat, m: nat)
    requires u.cur <= |s| && HostAndPort(s, u).0
    ensures IsHost(s, u.cur, h) && IsPort(s, h, m) && HostAndPort(s, u).1.cur == m
  {
    HostTakes(s, u.cur);
    h := Host(s, u.cur).value;
    var st := Parse(h, SetHost(u.uri, s[u.cur..h]));
    PortTakes(s, st);
    m := Port(s, st).cur;
  }

  lemma NetAuthority(s: string, st: Parse) returns (a: (bool, Parse), user: Option<nat>, u: Parse)
    requires st.cur <= |s| && NetPath(s, st).0
    ensures TwoSlashes(s, st.cur) && st.cur <= a.1.cur <= |s| && NetPath(s, st) == PathAfter(s, st.cur, a)
    ensures u.cur <= |s| && a == HostAndPort(s, u)
    ensures IsUser(s, st.cur, user) && HostAt(st.cur, user) == u.cur
  {
    NetPathBegins(s, st);
    NetPathIs(s, st);
    var b := st.(cur := st.cur + 2);
    user := UserTakes(s, b);
    u, a := UserInfo(s, b), Authority(s, b);
  }

  lemma PathAfterTakes(s: string, begin: nat, a: (bool, Parse))
    requires begin <= a.1.cur <= |s| && PathAfter(s, begin, a).0
    ensures a.0 && IsPath(s, a.1.cur, PathAfter(s, begin, a).1.cur)
  {
    SegmentsTake(s, a.1.cur);
  }

  lemma NetPathTakes(s: string, st: Parse) returns (c: Cuts)
    requires st.cur <= |s| && NetPath(s, st).0
    ensures c.begin == st.cur && IsNet(s, c) && NetPath(s, st).1.cur == c.path
  {
    var a, user, u := NetAuthority(s, st);
    PathAfterTakes(s, st.cur, a);
    var h, m := HostAndPortTake(s, u);
    c := Cuts(st.cur, user, h, m, PathAfter(s, st.cur, a).1.cur, 0);
  }

  lemma QueryTakes(s: string, st: Parse)
    requires st.cur <= |s|
    ensures var k := Query(s, st).cur;
            if k == st.cur then !At(s, k, '?')
            else st.cur < k && At(s, st.cur, '?') && IsText(s, st.cur + 1, k, IsQueryChar)
  {
    QueryIs(s, st);
    if At(s, st.cur, '?') {
      RunEscapedTakes(s, st.cur + 1, IsQueryChar);
    }
  }

  lemma FragmentTakes(s: string, st: Parse)
    requires st.cur <= |s| && Fragment(s, st).cur == |s|
    ensures st.cur == |s| || (At(s, st.cur, '#') && IsText(s, st.cur + 1, |s|, IsQueryChar))
  {
    FragmentIs(s, st);
    if At(s, st.cur, '#') {
      RunEscapedTakes(s, st.cur + 1, IsQueryChar);
    }
  }

  lemma TailTakes(s: string, h: Parse)
    requires h.cur <= |s| && Fragment(s, Query(s, h)).cur == |s|
    ensures IsTail(s, h.cur, Query(s, h).cur)
  {
    QueryTakes(s, h);
    FragmentTakes(s, Query(s, h));
  }

  lemma LocalTakes(s: string)
    ensures IsLocalPath(s, LocalPath(s, START, IsNoColonChar).cur)
  {
    if At(s, 0, '/') {
      RunEscapedTakes(s, 1, IsPChar);
      SegmentsTake(s, RunEscaped(s, 1, IsPChar));
    } else {
      RunEscapedTakes(s, 0, IsNoColonChar);
      SegmentsTake(s, RunEscaped(s, 0, IsNoColonChar));
    }
  }

  lemma SchemeTakes(s: string)
    requires SchemeEnd(s).Some?
    ensures IsScheme(s, SchemeEnd(s).value)
  {
    RunTakes(s, 1, IsSchemeChar);
  }

  // ---------------------------------------------------------------------------
  // Exactly which texts parse completely
  // ---------------------------------------------------------------------------

  ghost function AfterScheme(s: string): Parse
    requires SchemeEnd(s).Some?
  {
    var k := SchemeEnd(s).value;
    Parse(k + 1, CLEAR.(scheme := s[..k]))
  }

  lemma SchemeIs(s: string)
    requires SchemeEnd(s).Some?
    ensures ParseReference(s) == Fragment(s, Query(s, HierPart(s, AfterScheme(s))))
  {
  }

  lemma HierNet(s: string, st: Parse)
    requires st.cur <= |s| && NetPath(s, st).0
    ensures HierPart(s, st) == NetPath(s, st).1
  {
  }

  /** After a path without authority the cursor is back behind the scheme. */
  lemma HierLocal(s: string, st: Parse)
    requires st.cur <= |s| && !NetPath(s, st).0
    ensures HierPart(s, st).cur == st.cur
  {
  }

  lemma NetWithQuery(s: string, c: Cuts, k: nat)
    requires IsNet(s, c)
    ensures IsNet(s, c.(query := k))
  {
  }

  lemma UriTakes(s: string) returns (c: Cuts)
    requires SchemeEnd(s).Some? && Parses(s) && NetPath(s, AfterScheme(s)).0
    ensures IsUri(s, c)
  {
    SchemeIs(s);
    SchemeTakes(s);
    HierNet(s, AfterScheme(s));
    var h := NetPath(s, AfterScheme(s)).1;
    c := NetPathTakes(s, AfterScheme(s));
    TailTakes(s, h);
    NetWithQuery(s, c, Query(s, h).cur);
    c := c.(query := Query(s, h).cur);
  }

  /** From `i` on there is only a query, a fragment, both or nothing. */
  ghost predicate HasTail(s: string, i: nat) {
    exists k: nat :: IsTail(s, i, k)
  }

  lemma BareTakes(s: string)
    requires SchemeEnd(s).Some? && Parses(s) && !NetPath(s, AfterScheme(s)).0
    ensures HasTail(s, SchemeEnd(s).value + 1)
  {
    SchemeIs(s);
    HierLocal(s, AfterScheme(s));
    TailTakes(s, HierPart(s, AfterScheme(s)));
  }

  lemma BareParses(s: string)
    requires SchemeEnd(s).Some? && HasTail(s, SchemeEnd(s).value + 1)
    ensures Parses(s)
  {
    var i := SchemeEnd(s).value + 1;
    var k: nat :| IsTail(s, i, k);
    SchemeIs(s);
    NoNetPath(s, AfterScheme(s));
    HierLocal(s, AfterScheme(s));
    TailFinds(s, HierPart(s, AfterScheme(s)), k);
  }

  /** With a scheme: an authority as in the grammar, or nothing between the colon and the query. The
      grammar in the comments also has paths without authority, and the rollback loses them. */
  lemma SchemeParsesExactlyWhen(s: string)
    requires SchemeEnd(s).Some?
    ensures Parses(s) <==>
      (exists c :: IsUri(s, c)) || HasTail(s, SchemeEnd(s).value + 1)
    ensures !TwoSlashes(s, SchemeEnd(s).value + 1) ==>
      (Parses(s) <==> HasTail(s, SchemeEnd(s).value + 1))
    ensures Parses(s) ==> ParseReference(s).uri.hasAuthority || ParseReference(s).uri.path == ""
  {
    SchemeNeedsAuthorityOrEmptyPath(s);
    if Parses(s) {
      if NetPath(s, AfterScheme(s)).0 {
        var c := UriTakes(s);
        SchemeFinds(s, c.begin - 1);
      } else {
        BareTakes(s);
      }
    }
    if c :| IsUri(s, c) {
      GrammarParses(s, c);
      SchemeFinds(s, c.begin - 1);
    }
    if HasTail(s, SchemeEnd(s).value + 1) {
      BareParses(s);
    }
  }

  lemma QueryToEnd(s: string, h: Parse)
    requires h.cur <= |s| && Query(s, h).cur == |s|
    ensures IsTail(s, h.cur, |s|)
  {
    QueryTakes(s, h);
  }

  lemma NetRefTakes(s: string) returns (c: Cuts)
    requires Parses(s) && NetPath(s, START).0
    ensures IsNetRef(s, c) && c.query == |s|
  {
    NetRefIs(s);
    QueryToEnd(s, NetPath(s, START).1);
    c := NetPathTakes(s, START);
    NetWithQuery(s, c, |s|);
    c := c.(query := |s|);
  }

  /** Two slashes without an authority after them are never passed. */
  lemma TwoSlashesNeedAuthority(s: string)
    requires TwoSlashes(s, 0) && !NetPath(s, START).0
    ensures !Parses(s)
  {
    NetPathFails(s, START);
    var u := NetPath(s, START).1;
    DoubleSlashStuck(s, u);
    StuckNeverParses(s, LocalPath(s, u, IsNoColonChar));
  }

  lemma StuckNeverParses(s: string, h: Parse)
    requires SchemeEnd(s) == None && RelativePart(s, START) == h && Stuck(s, h)
    ensures !Parses(s)
  {
    RelativeIs(s);
  }

  lemma LocalRefTakes(s: string)
    requires SchemeEnd(s) == None && Parses(s) && !TwoSlashes(s, 0)
    ensures IsLocalRef(s, LocalPath(s, START, IsNoColonChar).cur, |s|)
  {
    RelativeIs(s);
    RelativeLocal(s);
    LocalTakes(s);
    QueryToEnd(s, LocalPath(s, START, IsNoColonChar));
  }

  /** Without a scheme: the relative references of the grammar that have no fragment. */
  lemma RelativeParsesExactlyWhen(s: string)
    requires SchemeEnd(s) == None
    ensures Parses(s) <==>
      (exists c :: IsNetRef(s, c) && c.query == |s|) || exists j: nat :: IsLocalRef(s, j, |s|)
  {
    if Parses(s) {
      if NetPath(s, START).0 {
        var c := NetRefTakes(s);
      } else {
        if TwoSlashes(s, 0) {
          TwoSlashesNeedAuthority(s);
        }
        LocalRefTakes(s);
      }
    }
    if c :| IsNetRef(s, c) && c.query == |s| {
      NetRefParses(s, c);
    }
    if j: nat :| IsLocalRef(s, j, |s|) {
      LocalRefParses(s, j, |s|);
    }
  }

  // ---------------------------------------------------------------------------
  // The fragment of a relative reference
  // ---------------------------------------------------------------------------

  ghost predicate NoHash(s: string, i: nat, j: nat) {
    forall k :: i <= k < j && k < |s| ==> s[k] != '#'
  }

  lemma {:induction false} PathHasNoHash(s: string, i: nat, j: nat)
    requires IsPath(s, i, j)
    ensures i <= j && NoHash(s, i, j)
    decreases j - i
  {
    if i < j {
      var k :| i < k <= j && IsText(s, i + 1, k, IsPChar) && IsPath(s, k, j);
      TextHasNo(s, i + 1, k, IsPChar, '#');
      PathHasNoHash(s, k, j);
    }
  }

  lemma SegmentsHaveNoHash(s: string, i: nat, j: nat, p: char -> bool)
    requires IsSegments(s, i, j, p) && !p('#')
    ensures NoHash(s, i, j)
  {
    var k :| i < k <= j && IsText(s, i, k, p) && IsPath(s, k, j);
    TextHasNo(s, i, k, p, '#');
    PathHasNoHash(s, k, j);
  }

  lemma QueryHasNoHash(s: string, i: nat)
    requires IsTail(s, i, |s|)
    ensures NoHash(s, i, |s|)
  {
    if i != |s| {
      TextHasNo(s, i + 1, |s|, IsQueryChar, '#');
    }
  }

  lemma AuthorityHasNoHash(s: string, c: Cuts)
    requires IsAuthority(s, c)
    ensures c.begin + 2 <= c.port && NoHash(s, c.begin + 2, c.port)
  {
    HostPortChars(s, HostStart(c), c.host, c.port);
    if c.user.Some? {
      TextHasNo(s, c.begin + 2, c.user.value, IsUserInfoChar, '#');
    }
  }

  lemma NetRefHasNoHash(s: string, c: Cuts)
    requires IsNetRef(s, c) && c.query == |s|
    ensures NoHash(s, 0, |s|)
  {
    AuthorityHasNoHash(s, c);
    PathHasNoHash(s, c.port, c.path);
    QueryHasNoHash(s, c.path);
  }

  lemma LocalRefHasNoHash(s: string, j: nat)
    requires IsLocalRef(s, j, |s|)
    ensures NoHash(s, 0, |s|)
  {
    QueryHasNoHash(s, j);
    if j > 0 {
      if At(s, 0, '/') && (j == 1 || IsSegments(s, 1, j, IsPChar)) {
        if j > 1 {
          SegmentsHaveNoHash(s, 1, j, IsPChar);
        }
      } else {
        SegmentsHaveNoHash(s, 0, j, IsNoColonChar);
      }
    }
  }

  /** Without a scheme nothing with a '#' parses, although the grammar in the comments of
      relative references has fragments. */
  lemma RelativeNeverHasFragment(s: string)
    requires SchemeEnd(s) == None && Parses(s)
    ensures '#' !in s
  {
    RelativeParsesExactlyWhen(s);
    if c :| IsNetRef(s, c) && c.query == |s| {
      NetRefHasNoHash(s, c);
    } else {
      var j: nat :| IsLocalRef(s, j, |s|);
      LocalRefHasNoHash(s, j);
    }
  }

  // ---------------------------------------------------------------------------
  // Host names that end in a dot
  // ---------------------------------------------------------------------------

  /** An authority as in the grammar, except that its host is labels each followed by a dot. */
  ghost predicate IsDotEndedAuthority(s: string, c: Cuts) {
    && TwoSlashes(s, c.begin) && IsUser(s, c.begin, c.user)
    && HostStart(c) < c.host && IsLabels(s, HostStart(c), c.host) && IsPort(s, c.host, c.port)
    && AuthorityStops(s, c.port)
  }

  lemma DotEndedUser(s: string, c: Cuts, b: Parse)
    requires IsDotEndedAuthority(s, c) && b.cur == c.begin + 2
    ensures b.cur <= |s| && UserInfo(s, b).cur == HostStart(c)
  {
    LabelsChars(s, HostStart(c), c.host);
    UserFinds(s, c, b);
  }

  lemma HostStartIs(s: string, d: Cuts, b: Parse)
    requires IsAuthority(s, d) && AuthorityStops(s, d.port) && b.cur == d.begin + 2
    ensures b.cur <= |s| && UserInfo(s, b).cur == HostStart(d)
  {
    HostPortChars(s, HostStart(d), d.host, d.port);
    UserFinds(s, d, b);
  }

  lemma DotEndedIsNoName(s: string, i: nat, t: nat, j: nat)
    requires IsLabels(s, i, t) && HostStops(s, t) && HostStops(s, j)
    ensures !IsHostName(s, i, j)
  {
    FinalDotRejected(s, i, t);
    if k: nat :| i <= k < j && IsLabels(s, i, k) && IsLabel(s, k, j) && IsAlpha(s[k]) {
      TopLabel(s, i, k, j);
    }
  }

  lemma DotEndedIsNoAddress(s: string, i: nat, t: nat, j: nat)
    requires i < t && IsLabels(s, i, t) && HostStops(s, t) && HostStops(s, j)
    ensures !IsIpv4(s, i, j)
  {
    LabelsChars(s, i, t);
    if IsIpv4(s, i, j) {
      DottedChars(s, i, j, 3);
    }
  }

  lemma DotEndedUri(s: string, c: Cuts, d: Cuts)
    requires IsDotEndedAuthority(s, c) && d.begin == c.begin
    ensures !(IsNet(s, d) && IsTail(s, d.path, d.query))
  {
    if IsNet(s, d) && IsTail(s, d.path, d.query) {
      PartsEnd(s, d);
      PortStops(s, d.host, d.port);
      PortStops(s, c.host, c.port);
      var b := Parse(c.begin + 2, CLEAR);
      DotEndedUser(s, c, b);
      HostStartIs(s, d, b);
      DotEndedIsNoName(s, HostStart(c), c.host, d.host);
      DotEndedIsNoAddress(s, HostStart(c), c.host, d.host);
    }
  }

  lemma SlashesAreNoLocalRef(s: string, j: nat, k: nat)
    ensures TwoSlashes(s, 0) ==> !IsLocalRef(s, j, k)
  {
    if IsLocalRef(s, j, k) {
      TailStops(s, j, k);
      LocalFinds(s, j);
    }
  }

  lemma FinalDotInNetRef(s: string, c: Cuts)
    requires IsDotEndedAuthority(s, c) && c.begin == 0
    ensures !Parses(s)
  {
    RelativeParsesExactlyWhen(s);
    if d :| IsNetRef(s, d) && d.query == |s| {
      DotEndedUri(s, c, d);
    }
    if j: nat :| IsLocalRef(s, j, |s|) {
      SlashesAreNoLocalRef(s, j, |s|);
    }
  }

  lemma FinalDotInUri(s: string, c: Cuts)
    requires IsDotEndedAuthority(s, c) && c.begin > 0 && IsScheme(s, c.begin - 1)
    ensures !Parses(s)
  {
    SchemeFinds(s, c.begin - 1);
    SchemeParsesExactlyWhen(s);
    if d :| IsUri(s, d) {
      SchemeFinds(s, d.begin - 1);
      DotEndedUri(s, c, d);
    }
    SlashIsNoTail(s, c.begin);
  }

  lemma SlashIsNoTail(s: string, i: nat)
    requires At(s, i, '/')
    ensures !HasTail(s, i)
  {
  }

  /** A reference whose host is a name with a dot at its end never parses completely. */
  lemma FinalDotNeverParses(s: string, c: Cuts)
    requires IsDotEndedAuthority(s, c) && (c.begin == 0 || IsScheme(s, c.begin - 1))
    ensures !Parses(s)
  {
    if c.begin == 0 {
      FinalDotInNetRef(s, c);
    } else {
      FinalDotInUri(s, c);
    }
  }

  // ---------------------------------------------------------------------------
  // Escapes
  // ---------------------------------------------------------------------------

  /** Every '%' between `i` and `j` begins an escape. */
  ghost predicate AllEscapes(s: string, i: nat, j: nat) {
    forall k :: i <= k < j && At(s, k, '%') ==> IsShortEscape(s, k) || IsLongEscape(s, k)
  }

  lemma {:induction false} TextEscapes(s: string, i: nat, j: nat, p: char -> bool)
    requires IsText(s, i, j, p) && !p('%')
    ensures i <= j && AllEscapes(s, i, j)
    decreases j - i
  {
    if i < j {
      if p(s[i]) && IsText(s, i + 1, j, p) {
        TextEscapes(s, i + 1, j, p);
      } else {
        TextEscapes(s, if IsShortEscape(s, i) then i + 3 else i + 6, j, p);
      }
    }
  }

  lemma {:induction false} PathEscapes(s: string, i: nat, j: nat)
    requires IsPath(s, i, j)
    ensures i <= j && AllEscapes(s, i, j)
    decreases j - i
  {
    if i < j {
      var k :| i < k <= j && IsText(s, i + 1, k, IsPChar) && IsPath(s, k, j);
      TextEscapes(s, i + 1, k, IsPChar);
      PathEscapes(s, k, j);
    }
  }

  lemma SegmentsEscape(s: string, i: nat, j: nat, p: char -> bool)
    requires IsSegments(s, i, j, p) && !p('%')
    ensures i <= j && AllEscapes(s, i, j)
  {
    var k :| i < k <= j && IsText(s, i, k, p) && IsPath(s, k, j);
    TextEscapes(s, i, k, p);
    PathEscapes(s, k, j);
  }

  lemma TailEscapes(s: string, i: nat, k: nat)
    requires IsTail(s, i, k)
    ensures i <= k && AllEscapes(s, i, |s|)
  {
    if k != i {
      TextEscapes(s, i + 1, k, IsQueryChar);
    }
    if k != |s| {
      TextEscapes(s, k + 1, |s|, IsQueryChar);
    }
  }

  lemma AuthorityEscapes(s: string, c: Cuts)
    requires IsAuthority(s, c)
    ensures c.begin + 2 <= c.port && AllEscapes(s, c.begin + 2, c.port)
  {
    HostPortChars(s, HostStart(c), c.host, c.port);
    if c.user.Some? {
      TextEscapes(s, c.begin + 2, c.user.value, IsUserInfoChar);
    }
  }

  lemma NetEscapes(s: string, c: Cuts)
    requires IsNet(s, c) && IsTail(s, c.path, c.query)
    ensures AllEscapes(s, c.begin, |s|)
  {
    AuthorityEscapes(s, c);
    PathEscapes(s, c.port, c.path);
    TailEscapes(s, c.path, c.query);
  }

  lemma LocalEscapes(s: string, j: nat, k: nat)
    requires IsLocalRef(s, j, k)
    ensures AllEscapes(s, 0, |s|)
  {
    TailEscapes(s, j, k);
    if j > 0 {
      if At(s, 0, '/') && (j == 1 || IsSegments(s, 1, j, IsPChar)) {
        if j > 1 {
          SegmentsEscape(s, 1, j, IsPChar);
        }
      } else {
        SegmentsEscape(s, 0, j, IsNoColonChar);
      }
    }
  }

  lemma SchemeEscapes(s: string, k: nat)
    requires IsScheme(s, k)
    ensures AllEscapes(s, 0, k + 1)
  {
  }

  lemma WithSchemeEscapes(s: string)
    requires SchemeEnd(s).Some? && Parses(s)
    ensures AllEscapes(s, 0, |s|)
  {
    SchemeTakes(s);
    SchemeEscapes(s, SchemeEnd(s).value);
    SchemeParsesExactlyWhen(s);
    if c :| IsUri(s, c) {
      SchemeFinds(s, c.begin - 1);
      NetEscapes(s, c);
    } else {
      var k: nat :| IsTail(s, SchemeEnd(s).value + 1, k);
      TailEscapes(s, SchemeEnd(s).value + 1, k);
    }
  }

  lemma WithoutSchemeEscapes(s: string)
    requires SchemeEnd(s).None? && Parses(s)
    ensures AllEscapes(s, 0, |s|)
  {
    RelativeParsesExactlyWhen(s);
    if c :| IsNetRef(s, c) && c.query == |s| {
      NetEscapes(s, c);
    } else {
      var j: nat :| IsLocalRef(s, j, |s|);
      LocalEscapes(s, j, |s|);
    }
  }

  /** A '%' that begins no escape stops every parse. */
  lemma BadEscapeNeverParses(s: string, k: nat)
    requires At(s, k, '%') && !IsShortEscape(s, k) && !IsLongEscape(s, k)
    ensures !Parses(s)
  {
    if Parses(s) {
      if SchemeEnd(s).Some? {
        WithSchemeEscapes(s);
      } else {
        WithoutSchemeEscapes(s);
      }
    }
  }

  /** Both kinds of escapes are taken, with any hexadecimal digits. */
  lemma EscapesParse(s: string)
    requires |s| >= 2 && At(s, 0, '/') && At(s, 1, '%')
    requires (|s| == 4 && IsShortEscape(s, 1)) || (|s| == 7 && IsLongEscape(s, 1))
    ensures Parses(s) && ParseReference(s).uri == CLEAR.(path := s)
  {
    var n := |s|;
    assert IsText(s, n, n, IsPChar) && IsText(s, 1, n, IsPChar) && IsPath(s, n, n);
    assert IsLocalRef(s, n, n);
    LocalRefParses(s, n, n);
    assert s[..n] == s;
  }

  /** User info whose host fails stays set, although the cursor goes back; such a text does not
      parse. */
  lemma UserInfoStays(s: string, k: nat)
    requires TwoSlashes(s, 0) && 2 <= k && IsText(s, 2, k, IsUserInfoChar) && At(s, k, '@')
    requires Host(s, k + 1) == None
    ensures k < |s| && !Parses(s)
    ensures ParseReference(s).uri.hasUserInfo && ParseReference(s).uri.userInfo == s[2..k]
  {
    var st := Parse(2, CLEAR);
    UserInfoFinds(s, st, k);
    assert Authority(s, st) == (false, Parse(k + 1, SetUserInfo(CLEAR, s[2..k])));
    NetPathIs(s, START);
    var n := NetPath(s, START);
    assert n == (false, Parse(0, SetUserInfo(CLEAR, s[2..k])));
    TwoSlashesNeedAuthority(s);
    assert SchemeEnd(s) == None;
    RelativeIs(s);
  }

  // ---------------------------------------------------------------------------
  // Texts of the grammar in the comments that do not parse
  // ---------------------------------------------------------------------------

  /** A scheme and a path without authority. */
  lemma RollbackWitness()
    ensures SchemeEnd("a:b") == Some(1) && !Parses("a:b")
  {
    var s := "a:b";
    assert IsScheme(s, 1);
    SchemeFinds(s, 1);
    SchemeParsesExactlyWhen(s);
    assert !HasTail(s, 2);
  }

  /** A relative reference with a fragment. */
  lemma FragmentWitness()
    ensures IsLocalRef("/a#b", 2, 2) && !Parses("/a#b")
  {
    var s := "/a#b";
    assert IsText(s, 2, 2, IsPChar) && IsText(s, 1, 2, IsPChar);
    assert IsPath(s, 2, 2);
    assert IsText(s, 4, 4, IsQueryChar) && IsText(s, 3, 4, IsQueryChar);
    assert IsLocalRef(s, 2, 2);
    LocalRefParses(s, 2, 2);
  }

  /** A host name with a final dot. */
  lemma FinalDotWitness()
    ensures !Parses("//a.")
  {
    var s := "//a.";
    assert IsLabel(s, 2, 3) && IsLabels(s, 4, 4) && IsLabels(s, 2, 4);
    FinalDotInNetRef(s, Cuts(0, None, 4, 4, 4, 4));
  }

  lemma DottedDigit(s: string, i: nat, t: nat)
    requires AtSet(s, i, IsDigit) && At(s, i + 1, '.') && i + 2 <= t && IsLabels(s, i + 2, t)
    ensures IsLabels(s, i, t)
  {
    assert IsLabel(s, i, i + 1);
    LabelsWithin(s, i + 2, t);
  }

  /** A host name with a trailing hyphen parses, though it is none by the comments. */
  lemma TrailingHyphenWitness()
    ensures Parses("//ab-") && IsHostName("//ab-", 2, 5) && !IsStrictLabel("//ab-", 2, 5)
  {
    var s := "//ab-";
    assert AtSet(s, 3, IsAlphaNum);
    assert IsLabel(s, 2, 5) && IsLabels(s, 2, 2);
    NetRefParses(s, Cuts(0, None, 5, 5, 5, 5));
  }

  /** An address with a final dot, of which a prefix is a host. */
  lemma FinalDotAddressWitness()
    ensures !Parses("//1.2.3.4.")
  {
    var s := "//1.2.3.4.";
    assert IsLabels(s, 10, 10);
    DottedDigit(s, 8, 10);
    DottedDigit(s, 6, 10);
    DottedDigit(s, 4, 10);
    DottedDigit(s, 2, 10);
    FinalDotInNetRef(s, Cuts(0, None, 10, 10, 10, 10));
  }
}
