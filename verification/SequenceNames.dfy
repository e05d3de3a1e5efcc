/** The names of sequence nodes and how the election compares them.

The server names a sequence node by appending a counter, printed with ten digits
and leading zeros, to the requested path. The election never parses the counter
back: it compares whole names as strings. */
module SequenceNames {
  import opened Digits

  /** Number of digits the server prints. */
  const WIDTH: nat := 10

  /** The server's counter is a signed 32-bit integer; this is its largest value. */
  const MAX_SEQUENCE: nat := 2147483647

  /** Lexicographic order of byte strings: `operator<` of `std::string`. */
  predicate LexLess(a: string, b: string) {
    b != "" && (a == "" || a[0] < b[0] || (a[0] == b[0] && LexLess(a[1..], b[1..])))
  }

  lemma {:induction false} LexIrreflexive(a: string)
    ensures !LexLess(a, a)
  {
    if a != "" {
      LexIrreflexive(a[1..]);
    }
  }

  lemma {:induction false} LexTransitive(a: string, b: string, c: string)
    requires LexLess(a, b) && LexLess(b, c)
    ensures LexLess(a, c)
  {
    if a != "" && a[0] == b[0] && b[0] == c[0] {
      LexTransitive(a[1..], b[1..], c[1..]);
    }
  }

  lemma {:induction false} LexTotal(a: string, b: string)
    ensures LexLess(a, b) || a == b || LexLess(b, a)
  {
    if a != "" && b != "" && a[0] == b[0] {
      LexTotal(a[1..], b[1..]);
      assert a == [a[0]] + a[1..] && b == [b[0]] + b[1..];
    }
  }

  /** A common prefix does not change the order. */
  lemma {:induction false} LexCommonPrefix(p: string, a: string, b: string)
    ensures LexLess(p + a, p + b) <==> LexLess(a, b)
  {
    if p == "" {
      assert p + a == a && p + b == b;
    } else {
      assert (p + a)[1..] == p[1..] + a && (p + b)[1..] == p[1..] + b;
      LexCommonPrefix(p[1..], a, b);
    }
  }

  /** Between strings of one length the last character only breaks ties. */
  lemma {:induction false} LexLastCharacter(a: string, c: char, b: string, d: char)
    requires |a| == |b|
    ensures LexLess(a + [c], b + [d]) <==> LexLess(a, b) || (a == b && c < d)
  {
    if a == "" {
      assert a + [c] == [c] && b + [d] == [d];
    } else {
      assert (a + [c])[1..] == a[1..] + [c] && (b + [d])[1..] == b[1..] + [d];
      assert a == [a[0]] + a[1..] && b == [b[0]] + b[1..];
      LexLastCharacter(a[1..], c, b[1..], d);
    }
  }

  /** Equal-length digit strings order as the numbers they print. */
  lemma {:induction false} PaddedOrder(a: nat, b: nat, width: nat)
    requires a < Pow10(width) && b < Pow10(width)
    ensures LexLess(Padded(a, width), Padded(b, width)) <==> a < b
    ensures Padded(a, width) == Padded(b, width) <==> a == b
  {
    if width > 0 {
      PaddedOrder(a / 10, b / 10, width - 1);
      var x, y := Padded(a / 10, width - 1), Padded(b / 10, width - 1);
      LexLastCharacter(x, DigitChar(a % 10), y, DigitChar(b % 10));
      assert Padded(a, width)[..width - 1] == x && Padded(b, width)[..width - 1] == y;
      assert Padded(a, width)[width - 1] == DigitChar(a % 10);
      assert Padded(b, width)[width - 1] == DigitChar(b % 10);
    }
  }

  /** The child name the server gives to sequence number `n`. */
  function NameOf(prefix: string, n: nat): (s: string)
    ensures |s| == |prefix| + WIDTH
    ensures prefix <= s
  {
    prefix + Padded(n, WIDTH)
  }

  lemma Pow10Width()
    ensures MAX_SEQUENCE < Pow10(WIDTH)
  {
    assert Pow10(5) == 100000;
    assert Pow10(10) == 100000 * Pow10(5);
  }

  /** Name order is sequence order, for every counter value the server can produce. */
  lemma NameOrder(prefix: string, a: nat, b: nat)
    requires a <= MAX_SEQUENCE && b <= MAX_SEQUENCE
    ensures LexLess(NameOf(prefix, a), NameOf(prefix, b)) <==> a < b
    ensures NameOf(prefix, a) == NameOf(prefix, b) <==> a == b
  {
    Pow10Width();
    PaddedOrder(a, b, WIDTH);
    LexCommonPrefix(prefix, Padded(a, WIDTH), Padded(b, WIDTH));
    assert NameOf(prefix, a)[|prefix|..] == Padded(a, WIDTH);
    assert NameOf(prefix, b)[|prefix|..] == Padded(b, WIDTH);
  }

  predicate IsSpace(c: char) {
    c == ' ' || c == '\t' || c == '\n' || c == '\r' || c == '\U{0B}' || c == '\U{0C}'
  }

  /** What `strtoull` in base ten consumes completely: blanks, one optional sign, digits.
      The suffixes the election tests have ten characters, so the value always fits. */
  predicate IsNumeric(s: string) {
    s != "" &&
    if IsSpace(s[0]) then IsNumeric(s[1..])
    else if s[0] == '+' || s[0] == '-' then |s| > 1 && AllDigits(s[1..])
    else AllDigits(s)
  }

  /** The characters `isspace` accepts: codes 9 to 13 and 32. */
  predicate IsBlank(c: char) {
    9 <= c as int <= 13 || c as int == 32
  }

  /** Blanks up to `i`, at most one sign up to `j`, and then one digit or more to the end. */
  ghost predicate IsNumberAt(s: string, i: nat, j: nat) {
    && i <= j < |s|
    && (forall k :: 0 <= k < i ==> IsBlank(s[k]))
    && (j == i || (j == i + 1 && (s[i] == '+' || s[i] == '-')))
    && (forall k :: j <= k < |s| ==> 48 <= s[k] as int <= 57)
  }

  ghost predicate IsNumberText(s: string) {
    exists i, j :: IsNumberAt(s, i, j)
  }

  lemma NumberAfterBlank(s: string, i: nat, j: nat)
    requires s != "" && IsBlank(s[0]) && IsNumberAt(s[1..], i, j)
    ensures IsNumberAt(s, i + 1, j + 1)
  {
  }

  lemma NumberBeforeBlank(s: string, i: nat, j: nat)
    requires s != "" && IsBlank(s[0]) && IsNumberAt(s, i, j)
    ensures i > 0 && IsNumberAt(s[1..], i - 1, j - 1)
  {
  }

  /** The test accepts exactly such texts. */
  lemma {:induction false} NumericExactlyWhen(s: string)
    ensures IsNumeric(s) <==> IsNumberText(s)
  {
    if s != "" && IsBlank(s[0]) {
      NumericExactlyWhen(s[1..]);
      if i, j :| IsNumberAt(s, i, j) {
        NumberBeforeBlank(s, i, j);
      }
      if i, j :| IsNumberAt(s[1..], i, j) {
        NumberAfterBlank(s, i, j);
      }
    } else if IsNumeric(s) {
      assert IsNumberAt(s, 0, if s[0] == '+' || s[0] == '-' then 1 else 0);
    }
  }

  /** The four tests a child must pass to take part in the election of `myself`. */
  predicate Eligible(prefix: string, myself: string, child: string) {
    && |child| > |prefix|
    && prefix <= child
    && |child| == |myself|
    && IsNumeric(child[|prefix|..])
  }

  /** Every name the server hands out takes part in every election on its prefix. */
  lemma SequenceNamesEligible(prefix: string, a: nat, b: nat)
    ensures Eligible(prefix, NameOf(prefix, a), NameOf(prefix, b))
  {
    assert NameOf(prefix, b)[|prefix|..] == Padded(b, WIDTH);
  }

  /** A child takes part exactly if it is the prefix and a number text, as long as one's own name. */
  lemma EligibleExactlyWhen(prefix: string, myself: string, child: string)
    ensures Eligible(prefix, myself, child) <==>
            |child| == |myself| && exists t :: child == prefix + t && IsNumberText(t)
  {
    if prefix <= child {
      var t := child[|prefix|..];
      assert child == prefix + t;
      NumericExactlyWhen(t);
    }
    forall t | child == prefix + t && IsNumberText(t) ensures IsNumeric(t) && t == child[|prefix|..] {
      NumericExactlyWhen(t);
    }
  }

  /** The node that gets number 123. */
  lemma NameWitness()
    ensures NameOf("n_", 123) == "n_0000000123"
  {
    assert Padded(1, 8) == "00000001";
    assert Padded(123, 10) == Padded(12, 9) + "3" && Padded(12, 9) == Padded(1, 8) + "2";
  }

  /** What one look at the children tells a candidate to do. */
  datatype Decision = NotFound | Lead | Watch(name: string)

  /** The decision the election is meant to take, said without the scanning loop:
      lead if no eligible child is smaller, otherwise watch the greatest smaller one. */
  ghost predicate IsDecision(prefix: string, myself: string, children: set<string>, d: Decision) {
    match d
    case NotFound => !(myself in children && Eligible(prefix, myself, myself))
    case Lead =>
      && myself in children && Eligible(prefix, myself, myself)
      && forall c :: c in children && Eligible(prefix, myself, c) ==> !LexLess(c, myself)
    case Watch(w) =>
      && myself in children && Eligible(prefix, myself, myself)
      && w in children && Eligible(prefix, myself, w) && LexLess(w, myself)
      && forall c :: c in children && Eligible(prefix, myself, c) && LexLess(c, myself) ==> !LexLess(w, c)
  }

  /** The meaning above leaves no choice. */
  lemma DecisionUnique(prefix: string, myself: string, children: set<string>, d: Decision, e: Decision)
    requires IsDecision(prefix, myself, children, d) && IsDecision(prefix, myself, children, e)
    ensures d == e
  {
    if d.Watch? && e.Watch? {
      LexTotal(d.name, e.name);
    }
  }

  /** A child that is not the prefix and a number text of the right length changes no decision. */
  lemma StrangerChangesNothing(prefix: string, myself: string, children: set<string>, c: string, d: Decision)
    requires |c| != |myself| || forall t :: c == prefix + t ==> !IsNumberText(t)
    ensures IsDecision(prefix, myself, children + {c}, d) <==> IsDecision(prefix, myself, children, d)
  {
    EligibleExactlyWhen(prefix, myself, c);
  }

  /** In particular one with a character in its suffix that belongs to no number. */
  lemma OddCharacterChangesNothing(prefix: string, myself: string, children: set<string>, t: string, k: nat, d: Decision)
    requires k < |t| && !('0' <= t[k] <= '9') && !IsBlank(t[k]) && t[k] != '+' && t[k] != '-'
    ensures IsDecision(prefix, myself, children + {prefix + t}, d) <==> IsDecision(prefix, myself, children, d)
  {
    forall u | prefix + t == prefix + u ensures !IsNumberText(u) {
      assert u == (prefix + u)[|prefix|..] == t;
    }
    StrangerChangesNothing(prefix, myself, children, prefix + t, d);
  }

  /** Whoever takes part and is smaller keeps one from leading, and nothing larger is watched. */
  lemma CompetitorCounts(prefix: string, myself: string, children: set<string>, t: string, d: Decision)
    requires IsNumberText(t) && |prefix + t| == |myself| && prefix + t in children && LexLess(prefix + t, myself)
    requires IsDecision(prefix, myself, children, d) && !d.NotFound?
    ensures d.Watch? && !LexLess(d.name, prefix + t)
  {
    EligibleExactlyWhen(prefix, myself, prefix + t);
  }

  /** First loop of `CheckLeader`: keep the children that take part. */
  method FilterChildren(prefix: string, myself: string, data: seq<string>) returns (children: seq<string>)
    ensures forall c :: c in children <==> c in data && Eligible(prefix, myself, c)
  {
    children := [];
    for i := 0 to |data|
      invariant forall c :: c in children <==> c in data[..i] && Eligible(prefix, myself, c)
    {
      var child := data[i];
      assert data[..i + 1] == data[..i] + [child];
      if |child| <= |prefix| { continue; }
      if !(prefix <= child) { continue; }
      if |child| != |myself| { continue; }
      if !IsNumeric(child[|prefix|..]) { continue; }
      children := children + [child];
    }
    assert data[..|data|] == data;
  }

  /** Both loops of `CheckLeader` and the choice that follows them. */
  method Decide(prefix: string, myself: string, data: seq<string>) returns (d: Decision)
    ensures IsDecision(prefix, myself, (set c | c in data), d)
  {
    var children := FilterChildren(prefix, myself, data);
    var smallest, watch, findMyself := "", "", false;
    for i := 0 to |children|
      invariant findMyself <==> myself in children[..i]
      invariant smallest == "" <==> i == 0
      invariant i > 0 ==> smallest in children[..i]
      invariant forall c :: c in children[..i] ==> !LexLess(c, smallest)
      invariant watch != "" ==> watch in children[..i] && LexLess(watch, myself)
      invariant forall c :: c in children[..i] && LexLess(c, myself) ==> watch != "" && !LexLess(watch, c)
    {
      var child := children[i];
      assert child in children;
      assert children[..i + 1] == children[..i] + [child];
      if !findMyself && child == myself {
        findMyself := true;
      }
      LexIrreflexive(child);
      if smallest == "" || LexLess(child, smallest) {
        ghost var before := smallest;
        smallest := child;
        forall c | c in children[..i + 1] ensures !LexLess(c, smallest) {
          if LexLess(c, child) && i > 0 {
            LexTransitive(c, child, before);
          }
        }
      }
      if LexLess(child, myself) && (watch == "" || LexLess(watch, child)) {
        ghost var before := watch;
        watch := child;
        forall c | c in children[..i + 1] && LexLess(c, myself) ensures !LexLess(watch, c) {
          if LexLess(child, c) {
            LexTransitive(before, child, c);
          }
        }
      }
    }
    assert children[..|children|] == children;
    if !findMyself {
      return NotFound;
    }
    if smallest == myself {
      return Lead;
    }
    LexTotal(smallest, myself);
    return Watch(watch);
  }
}
