/** The recursive-descent parser. A `Result` of the original remembers the cursor and
puts it back unless it was set to true; here that is the local `begin`. Only the cursor
is ever put back: whatever has been stored in the URI stays. */
module UriParsing {
  import opened UriSpec
  import opened Wrappers

  class UriParser {
    const input: string
    var current: nat
    var result: Uri

    ghost predicate Valid()
      reads this
    {
      current <= |input|
    }

    ghost function State(): Parse
      reads this
    {
      Parse(current, result)
    }

    constructor (uri: string)
      ensures Valid() && input == uri && State() == Parse(0, CLEAR)
    {
      input, current, result := uri, 0, CLEAR;
    }

    method MatchLiteral(c: char) returns (ok: bool)
      requires Valid()
      modifies this`current
      ensures Valid() && ok == At(input, old(current), c)
      ensures current == if ok then old(current) + 1 else old(current)
    {
      if current < |input| && input[current] == c {
        current := current + 1;
        return true;
      }
      return false;
    }

    method MatchTwoSlashes() returns (ok: bool)
      requires Valid()
      modifies this`current
      ensures Valid() && ok == (At(input, old(current), '/') && At(input, old(current) + 1, '/'))
      ensures current == if ok then old(current) + 2 else old(current)
    {
      if |input| - current >= 2 && input[current..current + 2] == "//" {
        current := current + 2;
        return true;
      }
      assert |input| - current >= 2 ==> input[current..current + 2] == [input[current], input[current + 1]];
      return false;
    }

    method MatchSet(p: char -> bool) returns (ok: bool)
      requires Valid()
      modifies this`current
      ensures Valid() && ok == AtSet(input, old(current), p)
      ensures current == if ok then old(current) + 1 else old(current)
    {
      if current < |input| && p(input[current]) {
        current := current + 1;
        return true;
      }
      return false;
    }

    method MatchPctEncoded() returns (ok: bool)
      requires Valid()
      modifies this`current
      ensures Valid() && ok == (Escape(input, old(current)) > 0)
      ensures current == old(current) + Escape(input, old(current))
    {
      var left := |input| - current;
      if left > 2 && input[current] == '%' {
        if IsHex(input[current + 1]) && IsHex(input[current + 2]) {
          current := current + 3;
          return true;
        }
        if left > 5 && input[current + 1] == 'u' &&
           IsHex(input[current + 2]) && IsHex(input[current + 3]) &&
           IsHex(input[current + 4]) && IsHex(input[current + 5]) {
          current := current + 6;
          return true;
        }
      }
      return false;
    }

    /** `while (match_byteset(p)) {}` */
    method SkipSet(p: char -> bool)
      requires Valid()
      modifies this`current
      ensures Valid() && current == Run(input, old(current), p)
    {
      var more := MatchSet(p);
      while more
        invariant Valid() && old(current) <= current
        invariant more ==> old(current) < current
        invariant Run(input, current, p) == Run(input, old(current), p)
        invariant !more ==> !AtSet(input, current, p)
        decreases |input| - current, more
      {
        more := MatchSet(p);
      }
    }

    /** `while (match_byteset(p) || match_pct_encoded()) {}` */
    method SkipSetOrEscapes(p: char -> bool)
      requires Valid()
      modifies this`current
      ensures Valid() && current == RunEscaped(input, old(current), p)
    {
      var more := true;
      while more
        invariant Valid() && old(current) <= current
        invariant RunEscaped(input, current, p) == RunEscaped(input, old(current), p)
        invariant !more ==> !AtSet(input, current, p) && Escape(input, current) == 0
        decreases |input| - current, more
      {
        more := MatchSet(p);
        if !more {
          more := MatchPctEncoded();
        }
      }
    }

    /** `segment-nz` and `segment-nz-nc`: at least one character. */
    method MatchNonEmptySegment(p: char -> bool) returns (ok: bool)
      requires Valid()
      modifies this`current
      ensures Valid() && current == RunEscaped(input, old(current), p)
      ensures ok == (current > old(current))
    {
      var begin := current;
      SkipSetOrEscapes(p);
      ok := current > begin;
    }

    /** The loop over "/" segment. */
    method SkipSegments()
      requires Valid()
      modifies this`current
      ensures Valid() && current == Segments(input, old(current))
    {
      var more := true;
      while more
        invariant Valid() && old(current) <= current
        invariant Segments(input, current) == Segments(input, old(current))
        invariant !more ==> !At(input, current, '/')
        decreases |input| - current, more
      {
        more := MatchLiteral('/');
        if more {
          SkipSetOrEscapes(IsPChar);
        }
      }
    }

    // --- hosts -----------------------------------------------------------------

    /** `domainlabel` and `toplabel`, which differ in the first character only. */
    method MatchLabel(first: char -> bool) returns (ok: bool)
      requires Valid()
      modifies this`current
      ensures Valid() && ok == Label(input, old(current), first).Some?
      ensures current == if ok then Label(input, old(current), first).value else old(current)
    {
      ok := MatchSet(first);
      if !ok {
        return;
      }
      var begin := current;
      var kept := false;
      var more := true;
      while more
        invariant Valid() && begin <= current
        invariant !kept && more ==> current == begin
        invariant more && kept ==> LabelMore(input, current) == LabelRest(input, begin)
        invariant !more && kept ==> current == LabelRest(input, begin)
        invariant !more && !kept ==> begin == LabelRest(input, begin)
        decreases |input| - current, more
      {
        LabelRestIs(input, current);
        SkipSet(c => c == '-');
        more := MatchSet(IsAlphaNum);
        if more {
          kept := true;
        }
      }
      if !kept {
        current := begin;
      }
    }

    /** The loop of `MatchHostName`: labels with a dot behind them. */
    method SkipDottedLabels()
      requires Valid()
      modifies this`current
      ensures Valid() && current == DottedLabels(input, old(current))
    {
      var more := true;
      while more
        invariant Valid() && old(current) <= current
        invariant more ==> DottedLabels(input, current) == DottedLabels(input, old(current))
        invariant !more ==> current == DottedLabels(input, old(current))
        decreases |input| - current, more
      {
        var here := current;
        more := MatchLabel(IsAlphaNum);
        if more {
          more := MatchLiteral('.');
        }
        if !more {
          current := here;
        }
      }
    }

    method MatchHostName() returns (ok: bool)
      requires Valid()
      modifies this`current
      ensures Valid() && ok == HostName(input, old(current)).Some?
      ensures current == if ok then HostName(input, old(current)).value else old(current)
    {
      var begin := current;
      SkipDottedLabels();
      ok := MatchLabel(IsAlpha);
      if ok {
        var _ := MatchLiteral('.');
      } else {
        current := begin;
      }
    }

    method MatchIpv4Address() returns (ok: bool)
      requires Valid()
      modifies this`current
      ensures Valid() && ok == Ipv4Address(input, old(current)).Some?
      ensures current == if ok then Ipv4Address(input, old(current)).value else old(current)
    {
      var begin := current;
      for i := 0 to 3
        invariant Valid() && begin <= current
        invariant Ipv4Fields(input, current, 3 - i) == Ipv4Fields(input, begin, 3)
      {
        var digit := MatchSet(IsDigit);
        if digit {
          SkipSet(IsDigit);
          var dot := MatchLiteral('.');
          if !dot {
            current := begin;
            return false;
          }
        }
      }
      ok := MatchSet(IsDigit);
      if ok {
        SkipSet(IsDigit);
      } else {
        current := begin;
      }
    }

    method MatchHost() returns (ok: bool)
      requires Valid()
      modifies this`current, this`result
      ensures Valid() && ok == Host(input, old(current)).Some?
      ensures State() == if ok then var k := Host(input, old(current)).value;
                                    Parse(k, SetHost(old(result), input[old(current)..k]))
                         else old(State())
    {
      var begin := current;
      ok := MatchHostName();
      if !ok {
        ok := MatchIpv4Address();
      }
      if ok {
        result := SetHost(result, input[begin..current]);
      }
    }

    // --- authority ---------------------------------------------------------------

    method MaybeContainsUserInfo() returns (b: bool)
      requires Valid()
      ensures b == MayContainUserInfo(input, current)
    {
      var p := current;
      while p < |input|
        invariant current <= p <= |input|
        invariant MayContainUserInfo(input, p) == MayContainUserInfo(input, current)
      {
        if input[p] == '@' {
          return true;
        }
        if input[p] == '/' {
          return false;
        }
        p := p + 1;
      }
      return false;
    }

    method MatchUserInfo()
      requires Valid()
      modifies this`current, this`result
      ensures Valid() && State() == UserInfo(input, old(State()))
    {
      var maybe := MaybeContainsUserInfo();
      if maybe {
        var begin := current;
        SkipSetOrEscapes(IsUserInfoChar);
        var ok := MatchLiteral('@');
        if ok {
          result := SetUserInfo(result, input[begin..current - 1]);
        } else {
          current := begin;
        }
      }
    }

    method MatchPort()
      requires Valid()
      modifies this`current, this`result
      ensures Valid() && State() == Port(input, old(State()))
    {
      var begin := current;
      var ok := MatchLiteral(':');
      if ok {
        SkipSet(IsDigit);
        result := SetPort(result, input[begin + 1..current]);
      }
    }

    method MatchAuthority() returns (ok: bool)
      requires Valid()
      modifies this`current, this`result
      ensures Valid() && (ok, State()) == Authority(input, old(State()))
    {
      MatchUserInfo();
      ok := MatchHost();
      if ok {
        MatchPort();
      }
    }

    // --- paths -------------------------------------------------------------------

    /** The path after an authority, or the cursor back at `begin`. */
    method MatchPathAfter(begin: nat, ok: bool)
      requires Valid() && begin <= current
      modifies this`current, this`result
      ensures Valid() && (ok, State()) == PathAfter(input, begin, (ok, old(State())))
    {
      if ok {
        var pathBegin := current;
        SkipSegments();
        result := result.(path := input[pathBegin..current]);
      } else {
        current := begin;
      }
    }

    method MatchNetPath() returns (ok: bool)
      requires Valid()
      modifies this`current, this`result
      ensures Valid() && (ok, State()) == NetPath(input, old(State()))
    {
      var begin := current;
      ok := MatchTwoSlashes();
      if ok {
        NetPathIs(input, old(State()));
        ok := MatchAuthority();
        MatchPathAfter(begin, ok);
      }
    }

    method MatchPathAbsolute() returns (ok: bool)
      requires Valid()
      modifies this`current, this`result
      ensures Valid() && ok == PathAbsolute(input, old(current)).Some?
      ensures State() == if ok then var k := PathAbsolute(input, old(current)).value;
                                    Parse(k, old(result).(path := input[old(current)..k]))
                         else old(State())
    {
      var begin := current;
      ok := MatchLiteral('/');
      if !ok {
        return;
      }
      var nonEmpty := MatchNonEmptySegment(IsPChar);
      if nonEmpty {
        SkipSegments();
      }
      result := result.(path := input[begin..current]);
    }

    /** `path-rootless` and `path-noscheme`. */
    method MatchPathFrom(p: char -> bool) returns (ok: bool)
      requires Valid()
      modifies this`current, this`result
      ensures Valid() && ok == PathFrom(input, old(current), p).Some?
      ensures State() == if ok then var k := PathFrom(input, old(current), p).value;
                                    Parse(k, old(result).(path := input[old(current)..k]))
                         else old(State())
    {
      var begin := current;
      ok := MatchNonEmptySegment(p);
      if !ok {
        return;
      }
      SkipSegments();
      result := result.(path := input[begin..current]);
    }

    /** path-absolute / path-rootless or path-noscheme / path-empty. */
    method MatchLocalPath(p: char -> bool)
      requires Valid()
      modifies this`current, this`result
      ensures Valid() && State() == LocalPath(input, old(State()), p)
    {
      var ok := MatchPathAbsolute();
      if !ok {
        ok := MatchPathFrom(p);
        if !ok {
          result := result.(path := "");
        }
      }
    }

    method MatchHierPart()
      requires Valid()
      modifies this`current, this`result
      ensures Valid() && State() == HierPart(input, old(State()))
    {
      var begin := current;
      var ok := MatchNetPath();
      if ok {
        return;
      }
      MatchLocalPath(IsPChar);
      current := begin;
    }

    method MatchRelativePart()
      requires Valid()
      modifies this`current, this`result
      ensures Valid() && State() == RelativePart(input, old(State()))
    {
      var ok := MatchNetPath();
      if !ok {
        MatchLocalPath(IsNoColonChar);
      }
    }

    // --- the whole reference -----------------------------------------------------

    method MatchQuery()
      requires Valid()
      modifies this`current, this`result
      ensures Valid() && State() == Query(input, old(State()))
    {
      var begin := current;
      var ok := MatchLiteral('?');
      if ok {
        SkipSetOrEscapes(IsQueryChar);
        result := SetQuery(result, input[begin + 1..current]);
      }
    }

    method MatchFragment()
      requires Valid()
      modifies this`current, this`result
      ensures Valid() && State() == Fragment(input, old(State()))
    {
      var begin := current;
      var ok := MatchLiteral('#');
      if ok {
        SkipSetOrEscapes(IsQueryChar);
        result := SetFragment(result, input[begin + 1..current]);
      }
    }

    method MatchSchemeAndColon() returns (ok: bool)
      requires Valid() && current == 0
      modifies this`current, this`result
      ensures Valid() && ok == SchemeEnd(input).Some?
      ensures State() == if ok then var k := SchemeEnd(input).value;
                                    Parse(k + 1, old(result).(scheme := input[..k]))
                         else old(State())
    {
      ok := MatchSet(IsAlpha);
      if ok {
        SkipSet(IsSchemeChar);
        ok := MatchLiteral(':');
        if ok {
          result := result.(scheme := input[0..current - 1]);
        } else {
          current := 0;
        }
      }
    }
  }

  /** `URI::ParseBuffer`: the number of characters parsed and the URI. */
  method ParseBuffer(uri: string) returns (length: nat, result: Uri)
    ensures Parse(length, result) == ParseReference(uri)
  {
    var p := new UriParser(uri);
    var ok := p.MatchSchemeAndColon();
    if ok {
      p.MatchHierPart();
      p.MatchQuery();
      p.MatchFragment();
    } else {
      p.MatchRelativePart();
      p.MatchQuery();
    }
    length, result := p.current, p.result;
  }

  /** `URI::Parse` followed by `URI::ToString`: a complete parse loses nothing. */
  method ParseUri(uri: string) returns (ok: bool, result: Uri)
    ensures ok == Parses(uri)
    ensures ok ==> ToString(result) == uri
  {
    var length;
    length, result := ParseBuffer(uri);
    ok := length == |uri|;
    if ok {
      ParseThenPrint(uri);
    }
  }
}
