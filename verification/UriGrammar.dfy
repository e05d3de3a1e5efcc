/** The grammar of the texts the parser takes, stated on positions of the text without saying how
to find the cuts, and the proof that everything of this grammar is parsed at its cuts. */
module UriGrammar {
  import opened UriSpec
  import opened Wrappers

  // ---------------------------------------------------------------------------
  // The grammar
  // ---------------------------------------------------------------------------

  ghost predicate AllIn(s: string, i: nat, j: nat, p: char -> bool) {
    i <= j <= |s| && forall k :: i <= k < j ==> p(s[k])
  }

  /** A hexadecimal digit stands at `i`. */
  predicate HexAt(s: string, i: nat) {
    i < |s| && (48 <= s[i] as int <= 57 || 65 <= s[i] as int <= 70 || 97 <= s[i] as int <= 102)
  }

  /** "%" hex hex */
  predicate IsShortEscape(s: string, i: nat) {
    At(s, i, '%') && HexAt(s, i + 1) && HexAt(s, i + 2)
  }

  /** "%u" hex hex hex hex */
  predicate IsLongEscape(s: string, i: nat) {
    && At(s, i, '%') && At(s, i + 1, 'u')
    && HexAt(s, i + 2) && HexAt(s, i + 3) && HexAt(s, i + 4) && HexAt(s, i + 5)
  }

  /** The code finds exactly these. */
  lemma EscapeExactlyWhen(s: string, i: nat)
    ensures Escape(s, i) == if IsShortEscape(s, i) then 3 else if IsLongEscape(s, i) then 6 else 0
  {
  }

  /** Characters of one set and escapes, up to `j`. */
  ghost predicate IsText(s: string, i: nat, j: nat, p: char -> bool)
    decreases j - i
  {
    || i == j <= |s|
    || (i < j <= |s| && p(s[i]) && IsText(s, i + 1, j, p))
    || (i + 3 <= j <= |s| && IsShortEscape(s, i) && IsText(s, i + 3, j, p))
    || (i + 6 <= j <= |s| && IsLongEscape(s, i) && IsText(s, i + 6, j, p))
  }

  /** The character sets, by code and by the lists of `UriParserByteSets`. */
  lemma CharacterSets(c: char)
    ensures IsDigit(c) <==> 48 <= c as int <= 57
    ensures IsAlpha(c) <==> 65 <= c as int <= 90 || 97 <= c as int <= 122
    ensures IsAlphaNum(c) <==> IsAlpha(c) || IsDigit(c)
    ensures IsSchemeChar(c) <==> IsAlphaNum(c) || c in "+-."
    ensures IsUserInfoChar(c) <==> IsAlphaNum(c) || c in "-._~" || c in ",:&=+$"
    ensures IsPChar(c) <==> IsAlphaNum(c) || c in "-._~" || c in "!$&'()*+,;=" || c in ":@|{}"
    ensures IsNoColonChar(c) <==> IsAlphaNum(c) || c in "-._~" || c in "!$&'()*+,;=" || c == '@'
    ensures IsQueryChar(c) <==> IsPChar(c) || c in "/?"
  {
  }

  predicate IsLabelChar(c: char) { IsAlphaNum(c) || c == '-' }

  ghost predicate HasAlphaNum(s: string, i: nat, j: nat) {
    exists k :: i <= k < j && AtSet(s, k, IsAlphaNum)
  }

  /** One letter or digit, or letters, digits and hyphens of which the first and some later one
      are no hyphen. RFC 2396 asks for the last one to be no hyphen. */
  ghost predicate IsLabel(s: string, i: nat, j: nat) {
    i < j && AllIn(s, i, j, IsLabelChar) && IsAlphaNum(s[i]) && (j == i + 1 || HasAlphaNum(s, i + 1, j))
  }

  /** alphanum | alphanum *( alphanum | "-" ) alphanum */
  ghost predicate IsStrictLabel(s: string, i: nat, j: nat) {
    i < j && AllIn(s, i, j, IsLabelChar) && IsAlphaNum(s[i]) && IsAlphaNum(s[j - 1])
  }

  /** The rule in the comments is the code's without trailing hyphens. */
  lemma StrictLabelExactlyWhen(s: string, i: nat, j: nat)
    ensures IsStrictLabel(s, i, j) <==> IsLabel(s, i, j) && s[j - 1] != '-'
  {
    if IsStrictLabel(s, i, j) {
      assert AtSet(s, j - 1, IsAlphaNum);
    }
  }

  /** Labels, each followed by a dot, up to `t`. */
  ghost predicate IsLabels(s: string, i: nat, t: nat)
    decreases t - i
  {
    i == t <= |s| || exists k :: i < k < t && IsLabel(s, i, k) && At(s, k, '.') && IsLabels(s, k + 1, t)
  }

  /** A host name has any number of these and a label that begins with a letter. */
  ghost predicate IsHostName(s: string, i: nat, j: nat) {
    exists t: nat :: i <= t < j && IsLabels(s, i, t) && IsLabel(s, t, j) && IsAlpha(s[t])
  }

  ghost predicate IsNumber(s: string, i: nat, j: nat) {
    i < j && AllIn(s, i, j, IsDigit)
  }

  /** Numbers with `dots` dots in between. */
  ghost predicate IsDotted(s: string, i: nat, j: nat, dots: nat)
    decreases dots
  {
    if dots == 0 then IsNumber(s, i, j)
    else exists k :: i < k < j && IsNumber(s, i, k) && At(s, k, '.') && IsDotted(s, k + 1, j, dots - 1)
  }

  ghost predicate IsIpv4(s: string, i: nat, j: nat) {
    IsDotted(s, i, j, 3)
  }

  ghost predicate IsHost(s: string, i: nat, j: nat) {
    IsHostName(s, i, j) || IsIpv4(s, i, j)
  }

  /** Nothing, or a colon and digits, up to `m`. */
  ghost predicate IsPort(s: string, h: nat, m: nat) {
    if m == h then h <= |s| && !At(s, h, ':')
    else h < m && At(s, h, ':') && AllIn(s, h + 1, m, IsDigit)
  }

  ghost predicate IsPath(s: string, i: nat, j: nat)
    decreases j - i
  {
    || i == j <= |s|
    || (i < j && At(s, i, '/') && exists k :: i < k <= j && IsText(s, i + 1, k, IsPChar) && IsPath(s, k, j))
  }

  /** Where the parts of a reference with an authority are: the two slashes are at `begin`, `user`
      is the position of the '@', and the other cuts are the ends of their parts. */
  datatype Cuts = Cuts(begin: nat, user: Option<nat>, host: nat, port: nat, path: nat, query: nat)

  ghost function HostAt(begin: nat, user: Option<nat>): nat {
    if user.Some? then user.value + 1 else begin + 2
  }

  ghost function HostStart(c: Cuts): nat {
    HostAt(c.begin, c.user)
  }

  /** Nothing, or user info and its '@'. */
  ghost predicate IsUser(s: string, begin: nat, user: Option<nat>) {
    user.Some? ==>
      begin + 2 <= user.value && IsText(s, begin + 2, user.value, IsUserInfoChar) && At(s, user.value, '@')
  }

  ghost predicate IsAuthority(s: string, c: Cuts) {
    IsUser(s, c.begin, c.user) && IsHost(s, HostStart(c), c.host) && IsPort(s, c.host, c.port)
  }

  predicate TwoSlashes(s: string, i: nat) {
    At(s, i, '/') && At(s, i + 1, '/')
  }

  /** "//" authority path-abempty */
  ghost predicate IsNet(s: string, c: Cuts) {
    TwoSlashes(s, c.begin) && IsAuthority(s, c) && IsPath(s, c.port, c.path)
  }

  /** [ "?" query ] [ "#" fragment ] to the end of the text, with the query up to `k`. */
  ghost predicate IsTail(s: string, i: nat, k: nat) {
    && (if k == i then !At(s, i, '?')
        else i < k && At(s, i, '?') && IsText(s, i + 1, k, IsQueryChar))
    && (k == |s| || (At(s, k, '#') && IsText(s, k + 1, |s|, IsQueryChar)))
  }

  ghost predicate IsScheme(s: string, k: nat) {
    0 < k && AllIn(s, 0, k, IsSchemeChar) && IsAlpha(s[0]) && At(s, k, ':')
  }

  /** scheme "://" authority path-abempty [ "?" query ] [ "#" fragment ] */
  ghost predicate IsUri(s: string, c: Cuts) {
    c.begin > 0 && IsScheme(s, c.begin - 1) && IsNet(s, c) && IsTail(s, c.path, c.query)
  }

  /** "//" authority path-abempty [ "?" query ] [ "#" fragment ] */
  ghost predicate IsNetRef(s: string, c: Cuts) {
    c.begin == 0 && IsNet(s, c) && IsTail(s, c.path, c.query)
  }

  /** A non-empty segment of characters of one set and more segments, from `i` to `j`. */
  ghost predicate IsSegments(s: string, i: nat, j: nat, p: char -> bool) {
    exists k :: i < k <= j && IsText(s, i, k, p) && IsPath(s, k, j)
  }

  /** path-absolute, path-noscheme or path-empty, up to `j`. */
  ghost predicate IsLocalPath(s: string, j: nat) {
    || j == 0
    || (At(s, 0, '/') && (j == 1 || IsSegments(s, 1, j, IsPChar)))
    || IsSegments(s, 0, j, IsNoColonChar)
  }

  /** One of these paths [ "?" query ] [ "#" fragment ] */
  ghost predicate IsLocalRef(s: string, j: nat, k: nat) {
    IsLocalPath(s, j) && IsTail(s, j, k)
  }

  /** The cuts of the authority are in order. */
  ghost predicate Within(s: string, c: Cuts) {
    && (c.user.Some? ==> c.begin + 2 <= c.user.value <= |s|)
    && HostStart(c) < c.host <= c.port <= |s|
  }

  ghost function SchemeBefore(s: string, begin: nat): string
    requires begin <= |s|
  {
    if begin == 0 then "" else s[..begin - 1]
  }

  /** The components between the cuts. */
  ghost function Components(s: string, c: Cuts): Uri
    requires Within(s, c) && c.begin <= |s| && c.port <= c.path <= c.query <= |s|
  {
    Uri(SchemeBefore(s, c.begin), true, c.user.Some?, if c.user.Some? then s[c.begin + 2..c.user.value] else "",
        s[HostStart(c)..c.host], c.host < c.port, if c.host < c.port then s[c.host + 1..c.port] else "",
        s[c.port..c.path], c.path < c.query, if c.path < c.query then s[c.path + 1..c.query] else "",
        c.query < |s|, if c.query < |s| then s[c.query + 1..] else "")
  }

  // ---------------------------------------------------------------------------
  // Each rule finds its cut
  // ---------------------------------------------------------------------------

  lemma {:induction false} RunFinds(s: string, i: nat, j: nat, p: char -> bool)
    requires AllIn(s, i, j, p) && !AtSet(s, j, p)
    ensures Run(s, i, p) == j
    decreases j - i
  {
    if i < j {
      RunFinds(s, i + 1, j, p);
    }
  }

  lemma {:induction false} RunEscapedFinds(s: string, i: nat, j: nat, p: char -> bool)
    requires IsText(s, i, j, p) && !AtSet(s, j, p) && !At(s, j, '%') && !p('%')
    ensures i <= j <= |s| && RunEscaped(s, i, p) == j
    decreases j - i
  {
    if i < j {
      if p(s[i]) {
        RunEscapedFinds(s, i + 1, j, p);
      } else {
        EscapeExactlyWhen(s, i);
        RunEscapedFinds(s, i + Escape(s, i), j, p);
      }
    }
  }

  /** Escapes are made of letters, digits and percent signs. */
  lemma {:induction false} TextHasNo(s: string, i: nat, j: nat, p: char -> bool, c: char)
    requires IsText(s, i, j, p) && !p(c) && !IsAlphaNum(c) && c != '%'
    ensures i <= j <= |s| && forall k :: i <= k < j ==> s[k] != c
    decreases j - i
  {
    if i < j {
      if p(s[i]) && IsText(s, i + 1, j, p) {
        TextHasNo(s, i + 1, j, p, c);
      } else {
        TextHasNo(s, if IsShortEscape(s, i) then i + 3 else i + 6, j, p, c);
      }
    }
  }

  /** Nothing that could continue a host. */
  predicate HostStops(s: string, j: nat) {
    j >= |s| || (!IsLabelChar(s[j]) && s[j] != '.')
  }

  lemma {:induction false} HyphensEnd(s: string, i: nat, j: nat)
    requires i <= j <= |s| && !At(s, j, '-')
    ensures Run(s, i, c => c == '-') <= j
    decreases j - i
  {
    if i < j && s[i] == '-' {
      HyphensEnd(s, i + 1, j);
    }
  }

  lemma {:induction false} LabelMoreFinds(s: string, i: nat, j: nat)
    requires AllIn(s, i, j, IsLabelChar) && !AtSet(s, j, IsLabelChar)
    ensures LabelMore(s, i) == j
    decreases j - i
  {
    var k := Run(s, i, c => c == '-');
    HyphensEnd(s, i, j);
    if k < j {
      LabelMoreFinds(s, k + 1, j);
    }
  }

  /** Hyphens that some letter or digit of the label follows end at one. */
  lemma {:induction false} HyphensWithin(s: string, i: nat, j: nat)
    requires AllIn(s, i, j, IsLabelChar) && HasAlphaNum(s, i, j)
    ensures var k := Run(s, i, c => c == '-'); k < j && IsAlphaNum(s[k])
    decreases j - i
  {
    if s[i] == '-' {
      var k :| i <= k < j && AtSet(s, k, IsAlphaNum);
      assert HasAlphaNum(s, i + 1, j);
      HyphensWithin(s, i + 1, j);
    }
  }

  lemma LabelFinds(s: string, i: nat, j: nat, first: char -> bool)
    requires IsLabel(s, i, j) && !AtSet(s, j, IsLabelChar)
    ensures first(s[i]) ==> Label(s, i, first) == Some(j)
  {
    if j == i + 1 {
      HyphensEnd(s, j, j);
    } else {
      HyphensWithin(s, i + 1, j);
      LabelMoreFinds(s, Run(s, i + 1, c => c == '-') + 1, j);
    }
  }

  /** A label with its dot is passed over. */
  lemma DottedStep(s: string, i: nat, k: nat)
    requires IsLabel(s, i, k) && At(s, k, '.')
    ensures DottedLabels(s, i) == DottedLabels(s, k + 1)
  {
    LabelFinds(s, i, k, IsAlphaNum);
  }

  /** The last label is left for the top label. */
  lemma DottedEnd(s: string, i: nat, j: nat)
    requires IsLabel(s, i, j) && HostStops(s, j)
    ensures DottedLabels(s, i) == i
  {
    LabelFinds(s, i, j, IsAlphaNum);
  }

  lemma FirstLabel(s: string, i: nat, t: nat) returns (k: nat)
    requires IsLabels(s, i, t) && i != t
    ensures i < k < t <= |s| && IsLabel(s, i, k) && At(s, k, '.') && IsLabels(s, k + 1, t)
  {
    k :| i < k < t && IsLabel(s, i, k) && At(s, k, '.') && IsLabels(s, k + 1, t);
    LabelsWithin(s, k + 1, t);
  }

  lemma {:induction false} LabelsWithin(s: string, i: nat, t: nat)
    requires IsLabels(s, i, t)
    ensures i <= t <= |s|
    decreases t - i
  {
    if i != t {
      var k :| i < k < t && IsLabel(s, i, k) && At(s, k, '.') && IsLabels(s, k + 1, t);
      LabelsWithin(s, k + 1, t);
    }
  }

  lemma {:induction false} LabelsPassed(s: string, i: nat, t: nat)
    requires IsLabels(s, i, t)
    ensures i <= t <= |s| && DottedLabels(s, i) == DottedLabels(s, t)
    decreases t - i
  {
    if i != t {
      var k := FirstLabel(s, i, t);
      LabelsPassed(s, k + 1, t);
      DottedStep(s, i, k);
    }
  }

  lemma TopLabel(s: string, i: nat, t: nat, j: nat)
    requires IsLabels(s, i, t) && IsLabel(s, t, j) && HostStops(s, j)
    ensures i <= t && HostName(s, i) == if IsAlpha(s[t]) then Some(j) else None
  {
    LabelsPassed(s, i, t);
    DottedEnd(s, t, j);
    LabelFinds(s, t, j, IsAlpha);
  }

  lemma NumberIsLabel(s: string, i: nat, j: nat)
    requires IsNumber(s, i, j)
    ensures IsLabel(s, i, j) && !IsAlpha(s[i])
  {
    assert j > i + 1 ==> AtSet(s, i + 1, IsAlphaNum);
  }

  lemma FieldStep(s: string, i: nat, j: nat, left: nat)
    requires IsNumber(s, i, j) && At(s, j, '.') && left > 0
    ensures Ipv4Fields(s, i, left) == Ipv4Fields(s, j + 1, left - 1)
  {
    RunFinds(s, i, j, IsDigit);
  }

  lemma FirstField(s: string, i: nat, j: nat, dots: nat) returns (k: nat)
    requires IsDotted(s, i, j, dots) && dots > 0
    ensures i < k < j && IsNumber(s, i, k) && At(s, k, '.') && IsDotted(s, k + 1, j, dots - 1)
  {
    k :| i < k < j && IsNumber(s, i, k) && At(s, k, '.') && IsDotted(s, k + 1, j, dots - 1);
  }

  /** All fields but the last look like labels with a dot. */
  lemma {:induction false} LastField(s: string, i: nat, j: nat, dots: nat) returns (t: nat)
    requires IsDotted(s, i, j, dots)
    ensures i <= t < j <= |s| && IsNumber(s, t, j) && Ipv4Fields(s, i, dots) == Some(t)
    ensures IsLabels(s, i, t)
    decreases dots
  {
    if dots == 0 {
      t := i;
    } else {
      var k := FirstField(s, i, j, dots);
      t := LastField(s, k + 1, j, dots - 1);
      FieldStep(s, i, k, dots);
      NumberIsLabel(s, i, k);
    }
  }

  lemma HostFinds(s: string, i: nat, j: nat)
    requires IsHost(s, i, j) && HostStops(s, j)
    ensures i < j <= |s| && Host(s, i) == Some(j)
  {
    if IsHostName(s, i, j) {
      var t: nat :| i <= t < j && IsLabels(s, i, t) && IsLabel(s, t, j) && IsAlpha(s[t]);
      TopLabel(s, i, t, j);
    } else {
      var t := LastField(s, i, j, 3);
      NumberIsLabel(s, t, j);
      TopLabel(s, i, t, j);
      RunFinds(s, t, j, IsDigit);
    }
  }

  lemma {:induction false} DottedStops(s: string, i: nat)
    requires i <= |s|
    ensures var l := Label(s, DottedLabels(s, i), IsAlphaNum);
            !(l.Some? && At(s, l.value, '.'))
    decreases |s| - i
  {
    var l := Label(s, i, IsAlphaNum);
    if l.Some? && At(s, l.value, '.') {
      DottedStops(s, l.value + 1);
    }
  }

  /** The grammar in the comments lets a name end in a dot; the code for it is never reached,
      because the loop over the dotted labels takes the last label and its dot as well. */
  lemma FinalDotNeverTaken(s: string, i: nat)
    requires i <= |s|
    ensures HostName(s, i) == Label(s, DottedLabels(s, i), IsAlpha)
  {
    DottedStops(s, i);
  }

  /** So a name that ends in a dot is no host name at all. */
  lemma FinalDotRejected(s: string, i: nat, t: nat)
    requires IsLabels(s, i, t) && HostStops(s, t)
    ensures i <= |s| && HostName(s, i) == None
  {
    LabelsPassed(s, i, t);
    assert DottedLabels(s, t) == t;
  }

  lemma {:induction false} SegmentsFind(s: string, i: nat, j: nat)
    requires IsPath(s, i, j) && !At(s, j, '/') && !AtSet(s, j, IsPChar) && !At(s, j, '%')
    ensures i <= j <= |s| && Segments(s, i) == j
    decreases j - i
  {
    if i < j {
      var k :| i < k <= j && IsText(s, i + 1, k, IsPChar) && IsPath(s, k, j);
      SegmentsFind(s, k, j);
      RunEscapedFinds(s, i + 1, k, IsPChar);
    }
  }

  // ---------------------------------------------------------------------------
  // The authority
  // ---------------------------------------------------------------------------

  lemma {:induction false} SeesAt(s: string, i: nat, k: nat)
    requires i <= k && At(s, k, '@') && forall n :: i <= n < k ==> s[n] != '/'
    ensures MayContainUserInfo(s, i)
    decreases k - i
  {
    if i < k {
      SeesAt(s, i + 1, k);
    }
  }

  lemma UserInfoFinds(s: string, st: Parse, k: nat)
    requires st.cur <= k && IsText(s, st.cur, k, IsUserInfoChar) && At(s, k, '@')
    ensures st.cur <= k < |s| && UserInfo(s, st) == Parse(k + 1, SetUserInfo(st.uri, s[st.cur..k]))
  {
    TextHasNo(s, st.cur, k, IsUserInfoChar, '/');
    SeesAt(s, st.cur, k);
    RunEscapedFinds(s, st.cur, k, IsUserInfoChar);
  }

  predicate IsHostChar(c: char) { IsLabelChar(c) || c == '.' }
  predicate IsHostPortChar(c: char) { IsHostChar(c) || c == ':' }

  lemma {:induction false} LabelsChars(s: string, i: nat, t: nat)
    requires IsLabels(s, i, t)
    ensures AllIn(s, i, t, IsHostChar) && (i < t ==> s[t - 1] == '.')
    decreases t - i
  {
    if i != t {
      var k := FirstLabel(s, i, t);
      LabelsChars(s, k + 1, t);
    }
  }

  lemma HostNameChars(s: string, i: nat, j: nat)
    requires IsHostName(s, i, j)
    ensures i < j && AllIn(s, i, j, IsHostChar)
  {
    var t: nat :| i <= t < j && IsLabels(s, i, t) && IsLabel(s, t, j) && IsAlpha(s[t]);
    LabelsChars(s, i, t);
  }

  lemma {:induction false} DottedChars(s: string, i: nat, j: nat, dots: nat)
    requires IsDotted(s, i, j, dots)
    ensures i < j && AllIn(s, i, j, IsHostChar) && IsDigit(s[j - 1])
    decreases dots
  {
    if dots > 0 {
      var k := FirstField(s, i, j, dots);
      DottedChars(s, k + 1, j, dots - 1);
    }
  }

  lemma {:induction false} PlainText(s: string, i: nat, j: nat, p: char -> bool)
    requires AllIn(s, i, j, p)
    ensures IsText(s, i, j, p)
    decreases j - i
  {
    if i < j {
      PlainText(s, i + 1, j, p);
    }
  }

  /** The end of the text, or a character that ends an authority. */
  predicate AuthorityStops(s: string, j: nat) {
    j >= |s| || s[j] == '/' || s[j] == '?' || s[j] == '#'
  }

  /** Without an '@' right after them, host and port are not taken for user info. */
  lemma NoUserInfo(s: string, st: Parse, m: nat)
    requires st.cur <= m && AllIn(s, st.cur, m, IsHostPortChar) && AuthorityStops(s, m)
    ensures UserInfo(s, st) == st
  {
    assert AllIn(s, st.cur, m, IsUserInfoChar);
    PlainText(s, st.cur, m, IsUserInfoChar);
    RunEscapedFinds(s, st.cur, m, IsUserInfoChar);
  }

  lemma HostPortChars(s: string, i: nat, h: nat, m: nat)
    requires IsHost(s, i, h) && IsPort(s, h, m)
    ensures i < h <= m && AllIn(s, i, m, IsHostPortChar)
  {
    if IsHostName(s, i, h) {
      HostNameChars(s, i, h);
    } else {
      DottedChars(s, i, h, 3);
    }
  }

  ghost function WithUser(s: string, c: Cuts, u: Uri): Uri
    requires c.user.Some? ==> c.begin + 2 <= c.user.value <= |s|
  {
    if c.user.Some? then SetUserInfo(u, s[c.begin + 2..c.user.value]) else u
  }

  ghost function WithPort(s: string, u: Uri, h: nat, m: nat): Uri
    requires h <= m <= |s|
  {
    if m == h then u else SetPort(u, s[h + 1..m])
  }

  ghost function WithHost(s: string, c: Cuts, u: Uri): Uri
    requires Within(s, c)
  {
    WithPort(s, SetHost(WithUser(s, c, u), s[HostStart(c)..c.host]), c.host, c.port)
  }

  lemma UserFinds(s: string, c: Cuts, st: Parse)
    requires IsUser(s, c.begin, c.user) && HostStart(c) <= c.port && AllIn(s, HostStart(c), c.port, IsHostPortChar)
    requires AuthorityStops(s, c.port) && st.cur == c.begin + 2
    ensures c.user.Some? ==> c.begin + 2 <= c.user.value <= |s|
    ensures st.cur <= |s| && UserInfo(s, st) == Parse(HostStart(c), WithUser(s, c, st.uri))
  {
    if c.user.Some? {
      UserInfoFinds(s, st, c.user.value);
    } else {
      NoUserInfo(s, st, c.port);
    }
  }

  lemma PortFinds(s: string, st: Parse, m: nat)
    requires st.cur <= |s| && IsPort(s, st.cur, m) && AuthorityStops(s, m)
    ensures st.cur <= m <= |s|
    ensures Port(s, st).cur == m && Port(s, st).uri == WithPort(s, st.uri, st.cur, m)
  {
    if m != st.cur {
      RunFinds(s, st.cur + 1, m, IsDigit);
    }
  }

  lemma PortStops(s: string, h: nat, m: nat)
    requires IsPort(s, h, m) && AuthorityStops(s, m)
    ensures HostStops(s, h)
  {
  }

  lemma HostAndPortFind(s: string, u: Parse, h: nat, m: nat)
    requires IsHost(s, u.cur, h) && IsPort(s, h, m) && AuthorityStops(s, m)
    ensures u.cur < h <= m <= |s| && HostAndPort(s, u).0 && HostAndPort(s, u).1.cur == m
    ensures HostAndPort(s, u).1.uri == WithPort(s, SetHost(u.uri, s[u.cur..h]), h, m)
  {
    HostPortChars(s, u.cur, h, m);
    PortStops(s, h, m);
    HostFinds(s, u.cur, h);
    PortFinds(s, Parse(h, SetHost(u.uri, s[u.cur..h])), m);
  }

  lemma AuthorityFinds(s: string, c: Cuts, st: Parse)
    requires IsAuthority(s, c) && AuthorityStops(s, c.port) && st.cur == c.begin + 2
    ensures Within(s, c) && st.cur <= |s|
    ensures Authority(s, st).0 && Authority(s, st).1.cur == c.port
    ensures Authority(s, st).1.uri == WithHost(s, c, st.uri)
  {
    HostPortChars(s, HostStart(c), c.host, c.port);
    UserFinds(s, c, st);
    HostAndPortFind(s, Parse(HostStart(c), WithUser(s, c, st.uri)), c.host, c.port);
  }

  // ---------------------------------------------------------------------------
  // The whole URI
  // ---------------------------------------------------------------------------

  lemma SchemeFinds(s: string, k: nat)
    requires IsScheme(s, k)
    ensures SchemeEnd(s) == Some(k)
  {
    RunFinds(s, 1, k, IsSchemeChar);
  }

  lemma PathWithin(s: string, i: nat, j: nat)
    requires IsPath(s, i, j)
    ensures i <= j && (i < j ==> At(s, i, '/'))
  {
  }

  /** What ends an authority, a path and a query. */
  lemma PartsEnd(s: string, c: Cuts)
    requires IsNet(s, c) && IsTail(s, c.path, c.query)
    ensures AuthorityStops(s, c.port)
    ensures !At(s, c.path, '/') && !AtSet(s, c.path, IsPChar) && !At(s, c.path, '%')
  {
    PathWithin(s, c.port, c.path);
  }

  lemma PathAfterFinds(s: string, begin: nat, a: (bool, Parse), k: nat)
    requires begin <= a.1.cur <= |s| && a.0 && Segments(s, a.1.cur) == k
    ensures a.1.cur <= k && PathAfter(s, begin, a).0 && PathAfter(s, begin, a).1.cur == k
    ensures PathAfter(s, begin, a).1.uri == a.1.uri.(path := s[a.1.cur..k])
  {
  }

  lemma NetSegments(s: string, c: Cuts)
    requires IsNet(s, c) && IsTail(s, c.path, c.query)
    ensures c.port <= c.path <= |s| && Segments(s, c.port) == c.path
  {
    PartsEnd(s, c);
    SegmentsFind(s, c.port, c.path);
  }

  lemma NetAuthorityFinds(s: string, c: Cuts, st: Parse) returns (a: (bool, Parse))
    requires IsNet(s, c) && IsTail(s, c.path, c.query) && st.cur == c.begin
    ensures Within(s, c) && st.cur + 2 <= c.port && a == (true, Parse(c.port, WithHost(s, c, st.uri)))
    ensures NetPath(s, st) == PathAfter(s, st.cur, a)
  {
    PartsEnd(s, c);
    a := AuthorityAfterSlashes(s, c, st);
  }

  lemma AuthorityAfterSlashes(s: string, c: Cuts, st: Parse) returns (a: (bool, Parse))
    requires TwoSlashes(s, st.cur) && IsAuthority(s, c) && AuthorityStops(s, c.port) && st.cur == c.begin
    ensures Within(s, c) && st.cur + 2 <= c.port && a == (true, Parse(c.port, WithHost(s, c, st.uri)))
    ensures NetPath(s, st) == PathAfter(s, st.cur, a)
  {
    AuthorityFinds(s, c, st.(cur := st.cur + 2));
    a := Authority(s, st.(cur := st.cur + 2));
    NetPathIs(s, st);
  }

  lemma NetPathFinds(s: string, c: Cuts, st: Parse)
    requires IsNet(s, c) && IsTail(s, c.path, c.query) && st.cur == c.begin
    ensures Within(s, c) && c.port <= c.path <= |s|
    ensures NetPath(s, st).0 && NetPath(s, st).1.cur == c.path
    ensures NetPath(s, st).1.uri == WithHost(s, c, st.uri).(path := s[c.port..c.path])
  {
    var a := NetAuthorityFinds(s, c, st);
    NetSegments(s, c);
    PathAfterFinds(s, st.cur, a, c.path);
  }

  ghost function WithQuery(s: string, u: Uri, i: nat, k: nat): Uri
    requires i <= k <= |s|
  {
    if k == i then u else SetQuery(u, s[i + 1..k])
  }

  ghost function WithFragment(s: string, u: Uri, i: nat): Uri
    requires i <= |s|
  {
    if i == |s| then u else SetFragment(u, s[i + 1..|s|])
  }

  lemma QueryFinds(s: string, st: Parse, k: nat)
    requires st.cur <= |s| && (k == |s| || At(s, k, '#'))
    requires if k == st.cur then !At(s, k, '?')
             else st.cur < k && At(s, st.cur, '?') && IsText(s, st.cur + 1, k, IsQueryChar)
    ensures st.cur <= k <= |s|
    ensures Query(s, st).cur == k && Query(s, st).uri == WithQuery(s, st.uri, st.cur, k)
  {
    QueryIs(s, st);
    if k != st.cur {
      RunEscapedFinds(s, st.cur + 1, k, IsQueryChar);
    }
  }

  lemma FragmentFinds(s: string, st: Parse)
    requires st.cur == |s| || (At(s, st.cur, '#') && IsText(s, st.cur + 1, |s|, IsQueryChar))
    ensures st.cur <= |s|
    ensures Fragment(s, st).cur == |s| && Fragment(s, st).uri == WithFragment(s, st.uri, st.cur)
  {
    FragmentIs(s, st);
    if st.cur < |s| {
      RunEscapedFinds(s, st.cur + 1, |s|, IsQueryChar);
    }
  }

  lemma UriIs(s: string, k: nat, h: Parse)
    requires SchemeEnd(s) == Some(k)
    requires NetPath(s, Parse(k + 1, CLEAR.(scheme := s[..k]))).0
    requires NetPath(s, Parse(k + 1, CLEAR.(scheme := s[..k]))).1 == h
    ensures ParseReference(s) == Fragment(s, Query(s, h))
  {
  }

  lemma TailFinds(s: string, h: Parse, k: nat)
    requires h.cur <= |s| && IsTail(s, h.cur, k)
    ensures h.cur <= k <= |s|
    ensures Fragment(s, Query(s, h)).cur == |s|
    ensures Fragment(s, Query(s, h)).uri == WithFragment(s, WithQuery(s, h.uri, h.cur, k), k)
  {
    QueryFinds(s, h, k);
    FragmentFinds(s, Query(s, h));
  }

  lemma ComponentsAre(s: string, c: Cuts)
    requires Within(s, c) && c.begin <= |s| && c.port <= c.path <= c.query <= |s|
    ensures var u := WithHost(s, c, CLEAR.(scheme := SchemeBefore(s, c.begin))).(path := s[c.port..c.path]);
            WithFragment(s, WithQuery(s, u, c.path, c.query), c.query) == Components(s, c)
  {
  }

  /** Every URI of the grammar with an authority parses completely, and the parse gives the
      components between its cuts. */
  lemma GrammarParses(s: string, c: Cuts)
    requires IsUri(s, c)
    ensures Within(s, c) && c.port <= c.path <= c.query <= |s|
    ensures Parses(s) && ParseReference(s).uri == Components(s, c)
  {
    var st := Parse(c.begin, CLEAR.(scheme := s[..c.begin - 1]));
    SchemeFinds(s, c.begin - 1);
    NetPathFinds(s, c, st);
    var h := NetPath(s, st).1;
    UriIs(s, c.begin - 1, h);
    TailFinds(s, h, c.query);
    ComponentsAre(s, c);
  }
}
