/**
 * OscAddress: sanitising of OSC addresses and the two-way address-pattern
 * matcher (OSC 1.0 "OSC Message Dispatching and Pattern Matching", with
 * patterns allowed on either side): '?' matches one character, '*' the
 * rest of an address part, "[...]" a character group (negated with '!',
 * "x-y" a range) and "{...,...}" a list of alternatives.
 */
module OscAddress {
  import opened Wrappers
  import opened Bytes

  const ADDRESS_PREFIX: char := '/'
  const ANY_SINGLE: char := '?'
  const ANY_MULTI: char := '*'
  const GROUP_BEGIN: char := '['
  const GROUP_END: char := ']'
  const GROUP_RANGE: char := '-'
  const GROUP_NEGATION: char := '!'
  const LIST_BEGIN: char := '{'
  const LIST_END: char := '}'
  const LIST_SEPARATOR: char := ','

  /** The characters HasAnySpecialPatternCharacter looks for, in the source's order. */
  const SPECIAL_PATTERN_CHARACTERS: seq<char> := ['?', '*', '[', ']', '-', '!', '{', '}', ',']

  // ---------------------------------------------------------------------
  // Sanitize

  /** address.Contains("//"). */
  predicate HasDoublePrefix(address: string)
  {
    exists i :: 0 <= i < |address| - 1 && address[i] == '/' && address[i + 1] == '/'
  }

  /** The text with every run of '/' shortened to a single '/'. */
  function Collapse(s: string): (r: string)
    ensures |r| <= |s|
  {
    if |s| <= 1 then s
    else if s[|s| - 1] == '/' && s[|s| - 2] == '/' then Collapse(s[..|s| - 1])
    else Collapse(s[..|s| - 1]) + [s[|s| - 1]]
  }

  /** The result of Sanitize as the source intends it: '/' in front when missing, "//" collapsed. */
  function Sanitized(address: string): (r: string)
  {
    var zeroLength := |address| == 0;
    var missingPrefix := !zeroLength && address[0] != ADDRESS_PREFIX;
    var doublePrefixes := !zeroLength && HasDoublePrefix(address);
    if !(zeroLength || missingPrefix || doublePrefixes) then address
    else
      (if zeroLength || missingPrefix then "/" else "") + (if doublePrefixes then Collapse(address) else address)
  }

  /** How the source's Sanitize ends: with an address, or never (it loops forever). */
  datatype SanitizeEnd = Returns(address: string) | NeverReturns

  /**
   * Sanitize as written: the collapsing loop never advances its index, so
   * any address containing "//" makes it spin forever.
   */
  function SanitizedAsWritten(address: string): (r: SanitizeEnd)
    ensures !HasDoublePrefix(address) ==> r == Returns(Sanitized(address))
    ensures |address| > 0 && HasDoublePrefix(address) ==> r == NeverReturns
  {
    if |address| > 0 && HasDoublePrefix(address) then NeverReturns else Returns(Sanitized(address))
  }

  /** The state of the source's collapsing loop: index, previous-was-'/', text built so far. */
  datatype CollapseState = CollapseState(i: nat, isPrevAddressPrefix: bool, built: string)

  /** One pass of the loop body exactly as written (no `i++`). */
  function CollapseStepAsWritten(address: string, st: CollapseState): (next: CollapseState)
    requires st.i < |address|
  {
    var c := address[st.i];
    var isAddressPrefix := c == ADDRESS_PREFIX;
    var built := if !(isAddressPrefix && st.isPrevAddressPrefix) then st.built + [c] else st.built;
    CollapseState(st.i, isAddressPrefix, built)
  }

  /** The loop state after `k` passes, starting from i = 0. */
  function CollapseRunAsWritten(address: string, k: nat): (st: CollapseState)
    requires |address| > 0
    ensures st.i == 0
  {
    if k == 0 then CollapseState(0, false, "")
    else CollapseStepAsWritten(address, CollapseRunAsWritten(address, k - 1))
  }

  /**
   * However many passes run, the index stays 0, so the loop never exits:
   * from an address starting with '/' the builder holds "/" for ever, from
   * any other it gains one copy of the first character per pass.
   */
  lemma {:induction false} CollapseLoopNeverExits(address: string, k: nat)
    requires |address| > 0 && HasDoublePrefix(address)
    ensures CollapseRunAsWritten(address, k).i < |address|
    ensures address[0] == '/' ==> CollapseRunAsWritten(address, k).built == (if k == 0 then "" else "/")
    ensures address[0] != '/' ==> CollapseRunAsWritten(address, k).built == seq(k, _ => address[0])
  {
    if k > 0 {
      CollapseLoopNeverExits(address, k - 1);
    }
  }

  /** No two '/' in a row. */
  predicate NoDoublePrefix(s: string)
  {
    forall i :: 0 <= i < |s| - 1 ==> !(s[i] == '/' && s[i + 1] == '/')
  }

  lemma NoDoublePrefixIff(s: string)
    ensures NoDoublePrefix(s) <==> !HasDoublePrefix(s)
  {
  }

  /** Collapsing keeps the first and the last character. */
  lemma {:induction false} CollapseEnds(s: string)
    requires |s| > 0
    ensures |Collapse(s)| > 0 && Collapse(s)[0] == s[0] && Collapse(s)[|Collapse(s)| - 1] == s[|s| - 1]
  {
    if |s| > 1 {
      CollapseEnds(s[..|s| - 1]);
    }
  }

  /** Collapsing leaves no "//". */
  lemma {:induction false} CollapseNoDouble(s: string)
    ensures NoDoublePrefix(Collapse(s))
  {
    if |s| > 1 {
      var init := s[..|s| - 1];
      CollapseNoDouble(init);
      CollapseEnds(init);
    }
  }

  /** Text without "//" is left as it is. */
  lemma {:induction false} CollapseIdentity(s: string)
    requires NoDoublePrefix(s)
    ensures Collapse(s) == s
  {
    if |s| > 1 {
      var init := s[..|s| - 1];
      CollapseIdentity(init);
      assert s == init + [s[|s| - 1]];
    }
  }

  /** A sanitised address starts with '/' and has no "//". */
  lemma SanitizedWellFormed(address: string)
    ensures |Sanitized(address)| > 0 && Sanitized(address)[0] == '/'
    ensures NoDoublePrefix(Sanitized(address))
  {
    var r := Sanitized(address);
    NoDoublePrefixIff(address);
    if |address| > 0 {
      CollapseEnds(address);
      CollapseNoDouble(address);
    }
    if |address| > 0 && address[0] != '/' {
      var body := if HasDoublePrefix(address) then Collapse(address) else address;
      assert body[0] != '/';
      assert r == "/" + body;
      assert NoDoublePrefix(r) by {
        forall i | 0 <= i < |r| - 1
          ensures !(r[i] == '/' && r[i + 1] == '/')
        {
          if i > 0 {
            assert r[i] == body[i - 1] && r[i + 1] == body[i];
          }
        }
      }
    }
  }

  /** Sanitising twice is sanitising once. */
  lemma SanitizedIdempotent(address: string)
    ensures Sanitized(Sanitized(address)) == Sanitized(address)
  {
    SanitizedWellFormed(address);
    NoDoublePrefixIff(Sanitized(address));
  }

  /** Sanitize with the collapsing loop advancing its index, as evidently intended. */
  method Sanitize(address: string) returns (result: string)
    ensures result == Sanitized(address)
  {
    var zeroLength := |address| == 0;
    var missingAddressPrefix := !zeroLength && address[0] != ADDRESS_PREFIX;
    var unsupportedDoublePrefixes := false;
    if !zeroLength {
      unsupportedDoublePrefixes := ContainsDoublePrefix(address);
    }
    if !(zeroLength || missingAddressPrefix || unsupportedDoublePrefixes) {
      return address;
    }
    var sb := "";
    if zeroLength || missingAddressPrefix {
      sb := sb + [ADDRESS_PREFIX];
    }
    if unsupportedDoublePrefixes {
      var prefix := sb;
      var isPrevAddressPrefix := false;
      var i := 0;
      while i < |address|
        invariant 0 <= i <= |address|
        invariant sb == prefix + Collapse(address[..i])
        invariant isPrevAddressPrefix == (i > 0 && address[i - 1] == ADDRESS_PREFIX)
      {
        var c := address[i];
        var isAddressPrefix := c == ADDRESS_PREFIX;
        assert address[..i + 1][..i] == address[..i];
        if !(isAddressPrefix && isPrevAddressPrefix) {
          sb := sb + [c];
        }
        isPrevAddressPrefix := isAddressPrefix;
        i := i + 1;
      }
      assert address[..i] == address;
    } else {
      sb := sb + address;
    }
    result := sb;
  }

  /** string.Contains("//"), scanning pairs. */
  method ContainsDoublePrefix(address: string) returns (found: bool)
    ensures found <==> HasDoublePrefix(address)
  {
    var i := 0;
    while i + 1 < |address|
      invariant 0 <= i <= |address|
      invariant forall j :: 0 <= j < i && j < |address| - 1 ==> !(address[j] == '/' && address[j + 1] == '/')
    {
      if address[i] == '/' && address[i + 1] == '/' {
        return true;
      }
      i := i + 1;
    }
    return false;
  }

  // ---------------------------------------------------------------------
  // HasAnySpecialPatternCharacter

  /** The address holds one of ? * [ ] - ! { } , */
  predicate HasSpecial(address: string)
  {
    exists i :: 0 <= i < |address| && address[i] in SPECIAL_PATTERN_CHARACTERS
  }

  /** One IndexOf per special character, in the source's order. */
  method HasAnySpecialPatternCharacter(address: string) returns (found: bool)
    ensures found <==> HasSpecial(address)
  {
    var k := 0;
    while k < |SPECIAL_PATTERN_CHARACTERS|
      invariant 0 <= k <= |SPECIAL_PATTERN_CHARACTERS|
      invariant forall j :: 0 <= j < k ==> SPECIAL_PATTERN_CHARACTERS[j] !in address
    {
      var c := SPECIAL_PATTERN_CHARACTERS[k];
      var index := IndexOf(address, c);
      if index != -1 {
        return true;
      }
      k := k + 1;
    }
    forall i | 0 <= i < |address|
      ensures address[i] !in SPECIAL_PATTERN_CHARACTERS
    {
      assert address[i] in address;
    }
    found := false;
  }

  /**
   * string.IndexOf(char): the first code unit of the text equal to `c`, or
   * -1.  For a character below the surrogates that is -1 exactly when the
   * character does not occur.
   */
  method IndexOf(s: string, c: char) returns (index: int)
    ensures index == -1 <==> c as nat !in Utf16(s)
    ensures index != -1 ==> 0 <= index < |Utf16(s)| && Utf16(s)[index] == c as nat && c as nat !in Utf16(s)[..index]
    ensures c as int < 0xD800 ==> (index == -1 <==> c !in s)
  {
    if c as int < 0xD800 {
      BmpUnitIn(s, c);
    }
    var units := Utf16(s);
    var i := 0;
    while i < |units|
      invariant 0 <= i <= |units| && c as nat !in units[..i]
    {
      if units[i] == c as nat {
        return i;
      }
      assert units[..i + 1] == units[..i] + [units[i]];
      i := i + 1;
    }
    assert units[..i] == units;
    return -1;
  }

  // ---------------------------------------------------------------------
  // Pattern matching: specification
  //
  // The source walks both addresses by `string` index, that is by UTF-16
  // code unit: a character outside the Basic Multilingual Plane is two
  // units, and '?' or a "[...]" group consumes one of them.  The matcher
  // below therefore works on `Utf16` of the addresses.

  /** Rule 2's skip: past the next '/' at or after `c`, or to the end. */
  function SkipPart(a: seq<nat>, c: nat): (r: nat)
    requires c <= |a|
    ensures c <= r <= |a|
    decreases |a| - c
  {
    if c == |a| then c else if a[c] == ADDRESS_PREFIX as nat then c + 1 else SkipPart(a, c + 1)
  }

  /** The first position at or after `j` holding ']' or '/', or |g|. */
  function GroupClose(g: seq<nat>, j: nat): (e: nat)
    requires j <= |g|
    ensures j <= e <= |g| && (e < |g| ==> g[e] == GROUP_END as nat || g[e] == ADDRESS_PREFIX as nat)
    ensures forall k :: j <= k < e ==> g[k] != GROUP_END as nat && g[k] != ADDRESS_PREFIX as nat
    decreases |g| - j
  {
    if j == |g| || g[j] == GROUP_END as nat || g[j] == ADDRESS_PREFIX as nat then j else GroupClose(g, j + 1)
  }

  /**
   * IsMatchingCharGroup: whether the code unit `test` matches the group
   * whose content starts at `index` (just after '['), and where the group
   * ends.  The group fails when it is empty, unterminated or cut by a '/'.
   */
  function CharGroup(test: nat, g: seq<nat>, index: nat): (r: (bool, nat))
    requires index <= |g|
    ensures r.0 ==> index < r.1 <= |g|
  {
    if index >= |g| then (false, index)
    else
      var negated := g[index] == GROUP_NEGATION as nat;
      var j := if negated then index + 1 else index;
      if j >= |g| then (false, j)
      else if g[j] == GROUP_END as nat then (false, j)
      else if j + 3 < |g| && g[j + 1] == GROUP_RANGE as nat && g[j + 3] == GROUP_END as nat then
        ((test < g[j] || test > g[j + 2]) == negated, j + 4)
      else
        var e := GroupClose(g, j);
        if e == |g| || g[e] == ADDRESS_PREFIX as nat then (false, e)
        else ((test in g[j..e]) == !negated, e + 1)
  }

  /** Which version of the string-list rule: the source's, or the corrected one. */
  datatype ListRule = AsWritten | Corrected

  /** After a matched '}': past the next '}' or to the end. */
  function SkipToListEnd(list: seq<nat>, li: nat): (r: nat)
    requires li <= |list|
    ensures li <= r <= |list|
    decreases |list| - li
  {
    if li == |list| then li else if list[li] == LIST_END as nat then li + 1 else SkipToListEnd(list, li + 1)
  }

  /** Whether a '}' occurs at or after `li`. */
  predicate ListEndAhead(list: seq<nat>, li: nat)
    requires li <= |list|
  {
    exists k :: li <= k < |list| && list[k] == LIST_END as nat
  }

  /**
   * The loop of IsMatchingStringList from list position `li`, with the test
   * position `t` of the current alternative and whether it still matches.
   * Returns success, the new test index and the new list index.
   */
  function ListScan(rule: ListRule, test: seq<nat>, testIndex: nat, list: seq<nat>, begin: nat, li: nat, t: nat, isMatch: bool)
    : (r: (bool, nat, nat))
    requires testIndex <= t <= |test| && begin <= li <= |list|
    ensures r.0 ==> testIndex <= r.1 <= |test| && li < r.2 <= |list|
    decreases |list| - li
  {
    if li >= |list| then (false, testIndex, li)
    else
      var ch := list[li];
      var next := li + 1;
      if ch == LIST_END as nat then
        if isMatch && t != testIndex then
          (true, t, if rule == AsWritten then SkipToListEnd(list, next) else next)
        else (false, testIndex, next)
      else if ch == LIST_SEPARATOR as nat then
        if isMatch && next != begin then
          (ListEndAhead(list, next), t, SkipToListEnd(list, next))
        else ListScan(rule, test, testIndex, list, begin, next, testIndex, true)
      else if t >= |test| then (false, testIndex, next)
      else ListScan(rule, test, testIndex, list, begin, next, t + 1, isMatch && ch == test[t])
  }

  /** IsMatchingStringList: the alternatives starting at `listIndex` against `test` at `testIndex`. */
  function StringList(rule: ListRule, test: seq<nat>, testIndex: nat, list: seq<nat>, listIndex: nat): (r: (bool, nat, nat))
    requires testIndex <= |test| && listIndex <= |list|
    ensures r.0 ==> testIndex <= r.1 <= |test| && listIndex < r.2 <= |list|
  {
    if listIndex >= |list| then (false, testIndex, listIndex)
    else ListScan(rule, test, testIndex, list, listIndex, listIndex, testIndex, true)
  }

  /** The main loop of IsMatching from code-unit positions c1 and c2. */
  function MatchFrom(rule: ListRule, a1: seq<nat>, a2: seq<nat>, c1: nat, c2: nat): (r: bool)
    requires c1 <= |a1| && c2 <= |a2|
    decreases |a1| - c1 + |a2| - c2, 1
  {
    if c1 < |a1| && c2 < |a2| then MatchPair(rule, a1, a2, c1, c2) else c1 == |a1| && c2 == |a2|
  }

  /** One pass of the loop: the rule chosen by the two code units at c1 and c2. */
  function MatchPair(rule: ListRule, a1: seq<nat>, a2: seq<nat>, c1: nat, c2: nat): (r: bool)
    requires c1 < |a1| && c2 < |a2|
    decreases |a1| - c1 + |a2| - c2, 0
  {
    var ch1, ch2 := a1[c1], a2[c2];
    if ch1 == ANY_SINGLE as nat || ch2 == ANY_SINGLE as nat then MatchFrom(rule, a1, a2, c1 + 1, c2 + 1)
    else if ch1 == ANY_MULTI as nat || ch2 == ANY_MULTI as nat then
      MatchFrom(rule, a1, a2, SkipPart(a1, c1 + 1), SkipPart(a2, c2 + 1))
    else if ch1 == GROUP_BEGIN as nat || ch2 == GROUP_BEGIN as nat then
      if ch1 == GROUP_BEGIN as nat && ch2 == GROUP_BEGIN as nat then false
      else if ch1 == GROUP_BEGIN as nat then
        var g := CharGroup(ch2, a1, c1 + 1);
        g.0 && MatchFrom(rule, a1, a2, g.1, c2 + 1)
      else
        var g := CharGroup(ch1, a2, c2 + 1);
        g.0 && MatchFrom(rule, a1, a2, c1 + 1, g.1)
    else if ch1 == LIST_BEGIN as nat || ch2 == LIST_BEGIN as nat then
      if ch1 == LIST_BEGIN as nat && ch2 == LIST_BEGIN as nat then false
      else if ch1 == LIST_BEGIN as nat then
        var l := StringList(rule, a2, c2, a1, c1 + 1);
        l.0 && MatchFrom(rule, a1, a2, l.2, l.1)
      else
        var l := StringList(rule, a1, c1, a2, c2 + 1);
        l.0 && MatchFrom(rule, a1, a2, l.1, l.2)
    else ch1 == ch2 && MatchFrom(rule, a1, a2, c1 + 1, c2 + 1)
  }

  /** IsMatching: both addresses must start with '/', then the loop decides over their code units. */
  function Matches(rule: ListRule, a1: string, a2: string): (r: bool)
    requires |a1| > 0 && |a2| > 0
    ensures r ==> a1[0] == ADDRESS_PREFIX && a2[0] == ADDRESS_PREFIX
  {
    FirstUnit(a1, ADDRESS_PREFIX);
    FirstUnit(a2, ADDRESS_PREFIX);
    var u1, u2 := Utf16(a1), Utf16(a2);
    u1[0] == ADDRESS_PREFIX as nat && u2[0] == ADDRESS_PREFIX as nat && MatchFrom(rule, u1, u2, 1, 1)
  }

  // ---------------------------------------------------------------------
  // Pattern matching: properties

  /** Every rule treats the two sides alike. */
  lemma {:induction false} MatchFromSymmetric(rule: ListRule, a1: seq<nat>, a2: seq<nat>, c1: nat, c2: nat)
    requires c1 <= |a1| && c2 <= |a2|
    ensures MatchFrom(rule, a1, a2, c1, c2) == MatchFrom(rule, a2, a1, c2, c1)
    decreases |a1| - c1 + |a2| - c2
  {
    if c1 < |a1| && c2 < |a2| {
      var ch1, ch2 := a1[c1], a2[c2];
      if ch1 == ANY_SINGLE as nat || ch2 == ANY_SINGLE as nat {
        MatchFromSymmetric(rule, a1, a2, c1 + 1, c2 + 1);
      } else if ch1 == ANY_MULTI as nat || ch2 == ANY_MULTI as nat {
        MatchFromSymmetric(rule, a1, a2, SkipPart(a1, c1 + 1), SkipPart(a2, c2 + 1));
      } else if ch1 == GROUP_BEGIN as nat || ch2 == GROUP_BEGIN as nat {
        if ch1 == GROUP_BEGIN as nat && ch2 != GROUP_BEGIN as nat {
          var g := CharGroup(ch2, a1, c1 + 1);
          if g.0 {
            MatchFromSymmetric(rule, a1, a2, g.1, c2 + 1);
          }
        } else if ch1 != GROUP_BEGIN as nat {
          var g := CharGroup(ch1, a2, c2 + 1);
          if g.0 {
            MatchFromSymmetric(rule, a1, a2, c1 + 1, g.1);
          }
        }
      } else if ch1 == LIST_BEGIN as nat || ch2 == LIST_BEGIN as nat {
        if ch1 == LIST_BEGIN as nat && ch2 != LIST_BEGIN as nat {
          var l := StringList(rule, a2, c2, a1, c1 + 1);
          if l.0 {
            MatchFromSymmetric(rule, a1, a2, l.2, l.1);
          }
        } else if ch1 != LIST_BEGIN as nat {
          var l := StringList(rule, a1, c1, a2, c2 + 1);
          if l.0 {
            MatchFromSymmetric(rule, a1, a2, l.1, l.2);
          }
        }
      } else {
        MatchFromSymmetric(rule, a1, a2, c1 + 1, c2 + 1);
      }
    }
  }

  /** IsMatching(a, b) == IsMatching(b, a). */
  lemma MatchesSymmetric(rule: ListRule, a1: string, a2: string)
    requires |a1| > 0 && |a2| > 0
    ensures Matches(rule, a1, a2) == Matches(rule, a2, a1)
  {
    MatchFromSymmetric(rule, Utf16(a1), Utf16(a2), 1, 1);
  }

  /** No character that triggers a pattern rule: ? * [ { */
  predicate Plain(s: string)
  {
    ANY_SINGLE !in s && ANY_MULTI !in s && GROUP_BEGIN !in s && LIST_BEGIN !in s
  }

  /** No code unit that triggers a pattern rule. */
  predicate PlainUnits(u: seq<nat>)
  {
    ANY_SINGLE as nat !in u && ANY_MULTI as nat !in u && GROUP_BEGIN as nat !in u && LIST_BEGIN as nat !in u
  }

  lemma {:induction false} PlainMatchFrom(rule: ListRule, a1: seq<nat>, a2: seq<nat>, c1: nat, c2: nat)
    requires c1 <= |a1| && c2 <= |a2| && PlainUnits(a1) && PlainUnits(a2)
    ensures MatchFrom(rule, a1, a2, c1, c2) <==> a1[c1..] == a2[c2..]
    decreases |a1| - c1 + |a2| - c2
  {
    if c1 < |a1| && c2 < |a2| {
      PlainMatchFrom(rule, a1, a2, c1 + 1, c2 + 1);
      assert a1[c1..] == [a1[c1]] + a1[c1 + 1..];
      assert a2[c2..] == [a2[c2]] + a2[c2 + 1..];
    } else if c1 < |a1| {
      assert a1[c1..] != [] && a2[c2..] == [];
    } else if c2 < |a2| {
      assert a2[c2..] != [] && a1[c1..] == [];
    }
  }

  /** Addresses without pattern characters match exactly when they are equal. */
  lemma PlainMatchesIffEqual(rule: ListRule, a1: string, a2: string)
    requires |a1| > 0 && |a2| > 0 && Plain(a1) && Plain(a2)
    ensures Matches(rule, a1, a2) <==> a1 == a2 && a1[0] == ADDRESS_PREFIX
  {
    var u1, u2 := Utf16(a1), Utf16(a2);
    forall a | a == a1 || a == a2
      ensures PlainUnits(Utf16(a))
    {
      BmpUnitIn(a, ANY_SINGLE);
      BmpUnitIn(a, ANY_MULTI);
      BmpUnitIn(a, GROUP_BEGIN);
      BmpUnitIn(a, LIST_BEGIN);
    }
    PlainMatchFrom(rule, u1, u2, 1, 1);
    FirstUnit(a1, ADDRESS_PREFIX);
    FirstUnit(a2, ADDRESS_PREFIX);
    if Matches(rule, a1, a2) {
      assert u1 == [u1[0]] + u1[1..] && u2 == [u2[0]] + u2[1..];
      Utf16Injective(a1, a2);
    }
  }

  /**
   * '?' and a group consume one code unit, so a character outside the
   * Basic Multilingual Plane takes two '?' and is never matched by a group.
   */
  lemma AstralCharacterIsTwoUnits(rule: ListRule)
    ensures !Matches(rule, "/?", "/\U{1F600}")
    ensures Matches(rule, "/??", "/\U{1F600}")
    ensures !Matches(rule, "/[\U{1F600}]", "/\U{1F600}")
  {
    AstralUnits();
    var smiley: seq<nat> := [0xD83D, 0xDE00];
    assert Utf16("/\U{1F600}") == [47] + Utf16("\U{1F600}") == [47] + smiley;
    assert Utf16("/?") == [47, 63] by {
      BmpUnits("/?");
    }
    assert Utf16("/??") == [47, 63, 63] by {
      BmpUnits("/??");
    }
    var group := Utf16("/[\U{1F600}]");
    assert group == [47, 91] + smiley + [93] by {
      assert Utf16("]") == [93] + Utf16("");
      assert Utf16("\U{1F600}]") == smiley + Utf16("]");
      assert Utf16("[\U{1F600}]") == [91] + Utf16("\U{1F600}]");
    }
    assert GroupClose(group, 2) == 4;
    assert CharGroup(0xD83D, group, 2) == (true, 5);
  }

  /**
   * As written, a list that matches at its closing '}' goes on to skip
   * everything up to the next '}', so "/{a}/x" does not match "/a/x".
   */
  lemma ListEndSkipsRest()
    ensures !Matches(AsWritten, "/{a}/x", "/a/x")
  {
    var a1, a2 := Utf16("/{a}/x"), Utf16("/a/x");
    assert a1 == [47, 123, 97, 125, 47, 120] by {
      BmpUnits("/{a}/x");
    }
    assert a2 == [47, 97, 47, 120] by {
      BmpUnits("/a/x");
    }
    var l := StringList(AsWritten, a2, 1, a1, 2);
    assert ListScan(AsWritten, a2, 1, a1, 2, 2, 1, true) == ListScan(AsWritten, a2, 1, a1, 2, 3, 2, true);
    assert SkipToListEnd(a1, 4) == |a1|;
    assert l == (true, 2, |a1|);
  }

  /** Corrected, the same pair matches. */
  lemma ListEndCorrected()
    ensures Matches(Corrected, "/{a}/x", "/a/x")
  {
    var a1, a2 := Utf16("/{a}/x"), Utf16("/a/x");
    assert a1 == [47, 123, 97, 125, 47, 120] by {
      BmpUnits("/{a}/x");
    }
    assert a2 == [47, 97, 47, 120] by {
      BmpUnits("/a/x");
    }
    assert ListScan(Corrected, a2, 1, a1, 2, 2, 1, true) == ListScan(Corrected, a2, 1, a1, 2, 3, 2, true);
    assert StringList(Corrected, a2, 1, a1, 2) == (true, 2, 4);
    assert MatchFrom(Corrected, a1, a2, 4, 2) == MatchFrom(Corrected, a1, a2, 5, 3);
  }

  /** No ',' or '}' in the code units: a single alternative of a list. */
  predicate PlainAlternative(alt: seq<nat>)
  {
    forall i :: 0 <= i < |alt| ==> alt[i] != LIST_SEPARATOR as nat && alt[i] != LIST_END as nat
  }

  lemma {:induction false} SingleAlternativeScan(rule: ListRule, test: seq<nat>, testIndex: nat, list: seq<nat>, li: nat, alt: seq<nat>, k: nat)
    requires k <= |alt| && 0 < |alt| && PlainAlternative(alt)
    requires li + |alt| < |list| && list[li..li + |alt|] == alt && list[li + |alt|] == LIST_END as nat
    requires testIndex + |alt| <= |test| && test[testIndex..testIndex + |alt|] == alt
    ensures ListScan(rule, test, testIndex, list, li, li + k, testIndex + k, true)
         == (true, testIndex + |alt|, if rule == Corrected then li + |alt| + 1 else SkipToListEnd(list, li + |alt| + 1))
    decreases |alt| - k
  {
    if k < |alt| {
      assert list[li + k] == alt[k] && test[testIndex + k] == alt[k];
      SingleAlternativeScan(rule, test, testIndex, list, li, alt, k + 1);
    }
  }

  /**
   * A list holding one alternative equal to the test text matches it,
   * advancing the test by the alternative.  Corrected, the list index stops
   * just past the '}'; as written it runs on to the next '}' or the end.
   */
  lemma SingleAlternative(rule: ListRule, test: seq<nat>, testIndex: nat, list: seq<nat>, li: nat, alt: seq<nat>)
    requires 0 < |alt| && PlainAlternative(alt)
    requires li + |alt| < |list| && list[li..li + |alt|] == alt && list[li + |alt|] == LIST_END as nat
    requires testIndex + |alt| <= |test| && test[testIndex..testIndex + |alt|] == alt
    ensures StringList(rule, test, testIndex, list, li)
         == (true, testIndex + |alt|, if rule == Corrected then li + |alt| + 1 else SkipToListEnd(list, li + |alt| + 1))
  {
    SingleAlternativeScan(rule, test, testIndex, list, li, alt, 0);
  }

  // ---------------------------------------------------------------------
  // Pattern matching: the source's loops, over the addresses' code units

  /** Rule 2's skip loop over one address. */
  method SkipAddressPart(a: seq<nat>, c: nat) returns (next: nat)
    requires c <= |a|
    ensures next == SkipPart(a, c)
  {
    next := c;
    while next < |a|
      invariant c <= next <= |a| && SkipPart(a, next) == SkipPart(a, c)
    {
      var ch := a[next];
      next := next + 1;
      if ch == ADDRESS_PREFIX as nat {
        break;
      }
    }
  }

  /** IsMatchingCharGroup, for one code unit, with `ref index` as an in and an out parameter. */
  method IsMatchingCharGroup(testChar: nat, charGroup: seq<nat>, index0: nat) returns (ok: bool, index: nat)
    requires index0 <= |charGroup|
    ensures ok == CharGroup(testChar, charGroup, index0).0
    ensures ok ==> index == CharGroup(testChar, charGroup, index0).1
  {
    index := index0;
    if index >= |charGroup| {
      return false, index;
    }
    var isNegated := false;
    if charGroup[index] == GROUP_NEGATION as nat {
      isNegated := true;
      index := index + 1;
      if index >= |charGroup| {
        return false, index;
      }
    }
    var ch := charGroup[index];
    if ch == GROUP_END as nat {
      return false, index;
    }
    if index + 3 < |charGroup| && charGroup[index + 1] == GROUP_RANGE as nat && charGroup[index + 3] == GROUP_END as nat {
      if (testChar < ch || testChar > charGroup[index + 2]) == isNegated {
        index := index + 4;
        return true, index;
      }
      return false, index;
    }
    var closed, isMatch;
    closed, isMatch, index := CompareGroup(testChar, charGroup, index);
    if !closed {
      return false, index;
    }
    ok := isMatch == !isNegated;
  }

  /** The regular-compare loop of IsMatchingCharGroup, from the group's first code unit. */
  method CompareGroup(testChar: nat, charGroup: seq<nat>, first: nat) returns (closed: bool, isMatch: bool, index: nat)
    requires first < |charGroup| && charGroup[first] != GROUP_END as nat
    ensures closed == (GroupClose(charGroup, first) < |charGroup| && charGroup[GroupClose(charGroup, first)] == GROUP_END as nat)
    ensures closed ==> index == GroupClose(charGroup, first) + 1
    ensures closed ==> isMatch == (testChar in charGroup[first..GroupClose(charGroup, first)])
  {
    var ch := charGroup[first];
    index, isMatch := first, false;
    while index < |charGroup|
      invariant first <= index <= |charGroup|
      invariant GroupClose(charGroup, first) == GroupClose(charGroup, index)
      invariant isMatch == (testChar in charGroup[first..index])
      invariant index > first ==> ch == charGroup[index - 1] && ch != GROUP_END as nat
    {
      ch := charGroup[index];
      assert charGroup[first..index + 1] == charGroup[first..index] + [ch];
      index := index + 1;
      if ch == GROUP_END as nat {
        break;
      }
      if ch == ADDRESS_PREFIX as nat {
        return false, isMatch, index;
      }
      if !isMatch && ch == testChar {
        isMatch := true;
      }
    }
    if index == |charGroup| && ch != GROUP_END as nat {
      return false, isMatch, index;
    }
    closed := true;
  }
  /** IsMatchingStringList, with both `ref` indices as in and out parameters. */
  method IsMatchingStringList(rule: ListRule, testString: seq<nat>, testIndex0: nat, stringList: seq<nat>, listIndex0: nat)
    returns (ok: bool, testIndex: nat, listIndex: nat)
    requires testIndex0 <= |testString| && listIndex0 <= |stringList|
    ensures ok == StringList(rule, testString, testIndex0, stringList, listIndex0).0
    ensures ok ==> testIndex == StringList(rule, testString, testIndex0, stringList, listIndex0).1
    ensures ok ==> listIndex == StringList(rule, testString, testIndex0, stringList, listIndex0).2
  {
    testIndex, listIndex := testIndex0, listIndex0;
    if listIndex >= |stringList| {
      return false, testIndex, listIndex;
    }
    var tempTestIndex := testIndex;
    var listBeginIndex := listIndex;
    var isMatch := true;
    while listIndex < |stringList|
      invariant listBeginIndex <= listIndex <= |stringList| && testIndex0 <= tempTestIndex <= |testString|
      invariant testIndex == testIndex0
      invariant ListScan(rule, testString, testIndex0, stringList, listBeginIndex, listIndex, tempTestIndex, isMatch)
             == StringList(rule, testString, testIndex0, stringList, listIndex0)
    {
      var ch := stringList[listIndex];
      listIndex := listIndex + 1;
      if ch == LIST_END as nat {
        if isMatch && tempTestIndex != testIndex {
          testIndex := tempTestIndex;
          if rule == AsWritten {
            listIndex := SkipListRest(stringList, listIndex);
          }
          return true, testIndex, listIndex;
        }
        return false, testIndex, listIndex;
      }
      if ch == LIST_SEPARATOR as nat {
        if isMatch && listIndex != listBeginIndex {
          testIndex := tempTestIndex;
          ghost var from := listIndex;
          while listIndex < |stringList|
            invariant from <= listIndex <= |stringList|
            invariant ListEndAhead(stringList, from) == ListEndAhead(stringList, listIndex)
            invariant SkipToListEnd(stringList, from) == SkipToListEnd(stringList, listIndex)
          {
            var c := stringList[listIndex];
            listIndex := listIndex + 1;
            if c == LIST_END as nat {
              return true, testIndex, listIndex;
            }
          }
          return false, testIndex, listIndex;
        }
        tempTestIndex := testIndex;
        isMatch := true;
        continue;
      }
      if tempTestIndex >= |testString| {
        return false, testIndex, listIndex;
      }
      if isMatch && ch != testString[tempTestIndex] {
        isMatch := false;
      }
      tempTestIndex := tempTestIndex + 1;
    }
    return false, testIndex, listIndex;
  }

  /** The as-written tail of a matched list: on to the next '}' or the end. */
  method SkipListRest(stringList: seq<nat>, listIndex0: nat) returns (listIndex: nat)
    requires listIndex0 <= |stringList|
    ensures listIndex == SkipToListEnd(stringList, listIndex0)
  {
    listIndex := listIndex0;
    while listIndex < |stringList|
      invariant listIndex0 <= listIndex <= |stringList|
      invariant SkipToListEnd(stringList, listIndex) == SkipToListEnd(stringList, listIndex0)
    {
      var c := stringList[listIndex];
      listIndex := listIndex + 1;
      if c == LIST_END as nat {
        return;
      }
    }
  }

  /**
   * IsMatching over the addresses' code units; an empty address makes the
   * source index out of range, hence the requires.
   */
  method IsMatching(rule: ListRule, address1: string, address2: string) returns (matching: bool)
    requires |address1| > 0 && |address2| > 0
    ensures matching == Matches(rule, address1, address2)
  {
    var units1, units2 := Utf16(address1), Utf16(address2);
    if units1[0] != ADDRESS_PREFIX as nat || units2[0] != ADDRESS_PREFIX as nat {
      return false;
    }
    var c1, c2 := 1, 1;
    while c1 < |units1| && c2 < |units2|
      invariant 1 <= c1 <= |units1| && 1 <= c2 <= |units2|
      invariant MatchFrom(rule, units1, units2, c1, c2) == Matches(rule, address1, address2)
      decreases |units1| - c1 + |units2| - c2
    {
      var ch1, ch2 := units1[c1], units2[c2];
      c1, c2 := c1 + 1, c2 + 1;
      if ch1 == ANY_SINGLE as nat || ch2 == ANY_SINGLE as nat {
        continue;
      }
      if ch1 == ANY_MULTI as nat || ch2 == ANY_MULTI as nat {
        c1 := SkipAddressPart(units1, c1);
        c2 := SkipAddressPart(units2, c2);
        continue;
      }
      if ch1 == GROUP_BEGIN as nat || ch2 == GROUP_BEGIN as nat {
        var ok;
        ok, c1, c2 := CharGroupRule(rule, units1, units2, c1, c2);
        if ok {
          continue;
        }
        return false;
      }
      if ch1 == LIST_BEGIN as nat || ch2 == LIST_BEGIN as nat {
        var ok;
        ok, c1, c2 := StringListRule(rule, units1, units2, c1, c2);
        if ok {
          continue;
        }
        return false;
      }
      if ch1 != ch2 {
        return false;
      }
    }
    matching := c1 == |units1| && c2 == |units2|;
  }

  /** Rule 3 of IsMatching, entered with both indices just past the code units read. */
  method CharGroupRule(rule: ListRule, address1: seq<nat>, address2: seq<nat>, c1: nat, c2: nat)
    returns (ok: bool, n1: nat, n2: nat)
    requires 1 <= c1 <= |address1| && 1 <= c2 <= |address2|
    requires address1[c1 - 1] != ANY_SINGLE as nat && address2[c2 - 1] != ANY_SINGLE as nat
    requires address1[c1 - 1] != ANY_MULTI as nat && address2[c2 - 1] != ANY_MULTI as nat
    requires address1[c1 - 1] == GROUP_BEGIN as nat || address2[c2 - 1] == GROUP_BEGIN as nat
    ensures ok ==> c1 <= n1 <= |address1| && c2 <= n2 <= |address2|
    ensures ok ==> MatchPair(rule, address1, address2, c1 - 1, c2 - 1) == MatchFrom(rule, address1, address2, n1, n2)
    ensures !ok ==> !MatchPair(rule, address1, address2, c1 - 1, c2 - 1)
  {
    var ch1, ch2 := address1[c1 - 1], address2[c2 - 1];
    n1, n2 := c1, c2;
    var ch1IsBegin, ch2IsBegin := ch1 == GROUP_BEGIN as nat, ch2 == GROUP_BEGIN as nat;
    if ch1IsBegin && ch2IsBegin {
      return false, n1, n2;
    }
    if ch1IsBegin {
      ok, n1 := IsMatchingCharGroup(ch2, address1, c1);
    } else {
      ok, n2 := IsMatchingCharGroup(ch1, address2, c2);
    }
  }

  /** Rule 4 of IsMatching, entered with both indices just past the code units read. */
  method StringListRule(rule: ListRule, address1: seq<nat>, address2: seq<nat>, c1: nat, c2: nat)
    returns (ok: bool, n1: nat, n2: nat)
    requires 1 <= c1 <= |address1| && 1 <= c2 <= |address2|
    requires address1[c1 - 1] != ANY_SINGLE as nat && address2[c2 - 1] != ANY_SINGLE as nat
    requires address1[c1 - 1] != ANY_MULTI as nat && address2[c2 - 1] != ANY_MULTI as nat
    requires address1[c1 - 1] != GROUP_BEGIN as nat && address2[c2 - 1] != GROUP_BEGIN as nat
    requires address1[c1 - 1] == LIST_BEGIN as nat || address2[c2 - 1] == LIST_BEGIN as nat
    ensures ok ==> c1 - 1 <= n1 <= |address1| && c2 - 1 <= n2 <= |address2| && c1 + c2 <= n1 + n2
    ensures ok ==> MatchPair(rule, address1, address2, c1 - 1, c2 - 1) == MatchFrom(rule, address1, address2, n1, n2)
    ensures !ok ==> !MatchPair(rule, address1, address2, c1 - 1, c2 - 1)
  {
    var ch1, ch2 := address1[c1 - 1], address2[c2 - 1];
    n1, n2 := c1, c2;
    var ch1IsBegin, ch2IsBegin := ch1 == LIST_BEGIN as nat, ch2 == LIST_BEGIN as nat;
    if ch1IsBegin && ch2IsBegin {
      return false, n1, n2;
    }
    if ch1IsBegin {
      n2 := n2 - 1;
      ok, n2, n1 := IsMatchingStringList(rule, address2, n2, address1, n1);
    } else {
      n1 := n1 - 1;
      ok, n1, n2 := IsMatchingStringList(rule, address1, n1, address2, n2);
    }
  }
}
