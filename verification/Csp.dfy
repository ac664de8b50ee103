/**
 buildCSP and buildCSPWithNonce of middleware_security.go, read back by the
 algorithm of section 2.2.1 of Content Security Policy Level 3.
 */
module Csp {
  import opened Ascii
  import Sanitize

  type Directives = map<string, string>

  // Printing

  function Part(name: string, value: string): string {
    if value == "" then name else name + " " + value
  }

  /** strings.Join(parts, "; ") */
  function Join(parts: seq<string>): string {
    if |parts| == 0 then ""
    else if |parts| == 1 then parts[0]
    else parts[0] + "; " + Join(parts[1..])
  }

  function Parts(order: seq<string>, d: Directives): (r: seq<string>)
    requires forall k :: k in order ==> k in d
    ensures |r| == |order|
  {
    if |order| == 0 then [] else [Part(order[0], d[order[0]])] + Parts(order[1..], d)
  }

  /** One of the orders in which a map may be visited. */
  ghost predicate IsOrder(order: seq<string>, d: Directives) {
    (forall k :: k in order <==> k in d) && forall i, j :: 0 <= i < j < |order| ==> order[i] != order[j]
  }

  lemma {:induction false} PartsAppend(order: seq<string>, k: string, d: Directives)
    requires k in d && forall x :: x in order ==> x in d
    ensures Parts(order + [k], d) == Parts(order, d) + [Part(k, d[k])]
  {
    if |order| == 0 {
      assert order + [k] == [k];
    } else {
      assert (order + [k])[1..] == order[1..] + [k];
      PartsAppend(order[1..], k, d);
    }
  }

  /** `csp` lists the directives in some order. */
  ghost predicate Prints(csp: string, d: Directives) {
    exists order :: IsOrder(order, d) && csp == Join(Parts(order, d))
  }

  // Parsing

  predicate IsWhite(c: char) {
    c == '\t' || c == '\n' || c == '\U{0C}' || c == '\r' || c == ' '
  }

  /** Strictly split on semicolons. */
  function SplitSemi(s: string): (r: seq<string>)
    ensures |r| > 0
  {
    if |s| == 0 then [""]
    else if s[0] == ';' then [""] + SplitSemi(s[1..])
    else
      var rest := SplitSemi(s[1..]);
      [[s[0]] + rest[0]] + rest[1..]
  }

  function StripLeft(s: string): string {
    if |s| > 0 && IsWhite(s[0]) then StripLeft(s[1..]) else s
  }

  function StripRight(s: string): string {
    if |s| > 0 && IsWhite(s[|s| - 1]) then StripRight(s[..|s| - 1]) else s
  }

  /** The longest prefix without ASCII white space. */
  function Word(s: string): (r: string)
    ensures r <= s
  {
    if |s| == 0 || IsWhite(s[0]) then "" else [s[0]] + Word(s[1..])
  }

  /** Split on ASCII white space: the maximal runs of other characters. */
  function Tokens(s: string): seq<string>
    decreases |s|
  {
    if |s| == 0 then []
    else if IsWhite(s[0]) then Tokens(s[1..])
    else [Word(s)] + Tokens(s[|Word(s)|..])
  }

  predicate IsAscii(s: string) {
    forall i :: 0 <= i < |s| ==> s[i] <= '\U{7F}'
  }

  datatype Directive = Directive(name: string, tokens: seq<string>)

  predicate HasName(policy: seq<Directive>, name: string) {
    exists i :: 0 <= i < |policy| && policy[i].name == name
  }

  /** What one token between semicolons adds to the policy. */
  function AddToken(policy: seq<Directive>, raw: string): seq<Directive> {
    var token := StripRight(StripLeft(raw));
    if token == "" || !IsAscii(token) then policy
    else
      var word := Word(token);
      if HasName(policy, Lower(word)) then policy
      else policy + [Directive(Lower(word), Tokens(token[|word|..]))]
  }

  function AddTokens(policy: seq<Directive>, raws: seq<string>): seq<Directive>
    decreases |raws|
  {
    if |raws| == 0 then policy else AddTokens(AddToken(policy, raws[0]), raws[1..])
  }

  function Parse(s: string): seq<Directive> {
    AddTokens([], SplitSemi(s))
  }

  // Round trip

  /** Directive names as the specification has them: not empty, lower case, without white space and semicolon. */
  predicate GoodName(s: string) {
    s != "" && IsAscii(s) && Lower(s) == s && forall i :: 0 <= i < |s| ==> !IsWhite(s[i]) && s[i] != ';'
  }

  predicate GoodValue(s: string) {
    IsAscii(s) && ';' !in s
  }

  predicate Good(d: Directives) {
    forall k :: k in d ==> GoodName(k) && GoodValue(d[k])
  }

  lemma {:induction false} SplitNone(s: string)
    requires ';' !in s
    ensures SplitSemi(s) == [s]
  {
    if |s| > 0 {
      SplitNone(s[1..]);
      assert SplitSemi(s[1..])[1..] == [];
      assert [s[0]] + s[1..] == s;
    }
  }

  lemma {:induction false} SplitFirst(s: string, t: string)
    requires ';' !in s
    ensures SplitSemi(s + ";" + t) == [s] + SplitSemi(t)
  {
    var all := s + ";" + t;
    if |s| == 0 {
      assert all == ";" + t && all[1..] == t;
    } else {
      assert all[1..] == s[1..] + ";" + t;
      SplitFirst(s[1..], t);
      assert SplitSemi(all[1..])[1..] == SplitSemi(t);
      assert [s[0]] + s[1..] == s;
    }
  }

  /** The tokens between the semicolons of a printed policy: every part but the first has a space in front. */
  function Spaced(parts: seq<string>): seq<string> {
    if |parts| == 0 then [] else [" " + parts[0]] + Spaced(parts[1..])
  }

  lemma {:induction false} SplitSpaced(parts: seq<string>)
    requires |parts| > 0 && forall i :: 0 <= i < |parts| ==> ';' !in parts[i]
    ensures SplitSemi(" " + Join(parts)) == Spaced(parts)
  {
    if |parts| == 1 {
      SplitNone(" " + parts[0]);
      assert Spaced(parts[1..]) == [];
    } else {
      SplitSpaced(parts[1..]);
      assert " " + Join(parts) == (" " + parts[0]) + ";" + (" " + Join(parts[1..]));
      SplitFirst(" " + parts[0], " " + Join(parts[1..]));
    }
  }

  lemma {:induction false} SplitJoin(parts: seq<string>)
    requires |parts| > 0 && forall i :: 0 <= i < |parts| ==> ';' !in parts[i]
    ensures SplitSemi(Join(parts)) == [parts[0]] + Spaced(parts[1..])
  {
    hide SplitSemi;
    if |parts| == 1 {
      SplitNone(parts[0]);
      assert Spaced(parts[1..]) == [];
    } else {
      SplitSpaced(parts[1..]);
      assert Join(parts) == parts[0] + ";" + (" " + Join(parts[1..]));
      SplitFirst(parts[0], " " + Join(parts[1..]));
    }
  }

  lemma {:induction false} TokensStripRight(s: string)
    ensures Tokens(StripRight(s)) == Tokens(s)
  {
    if |s| > 0 && IsWhite(s[|s| - 1]) {
      TokensStripRight(s[..|s| - 1]);
      TokensTrailing(s[..|s| - 1], s[|s| - 1]);
      assert s == s[..|s| - 1] + [s[|s| - 1]];
    }
  }

  lemma {:induction false} WordTrailing(s: string, c: char)
    requires IsWhite(c)
    ensures Word(s + [c]) == Word(s)
  {
    if |s| > 0 && !IsWhite(s[0]) {
      assert (s + [c])[1..] == s[1..] + [c];
      WordTrailing(s[1..], c);
    }
  }

  lemma {:induction false} TokensTrailing(s: string, c: char)
    requires IsWhite(c)
    ensures Tokens(s + [c]) == Tokens(s)
    decreases |s|
  {
    if |s| == 0 {
      assert (s + [c])[1..] == "";
    } else if IsWhite(s[0]) {
      assert (s + [c])[1..] == s[1..] + [c];
      TokensTrailing(s[1..], c);
    } else {
      WordTrailing(s, c);
      assert (s + [c])[|Word(s)|..] == s[|Word(s)|..] + [c];
      TokensTrailing(s[|Word(s)|..], c);
    }
  }

  lemma StripLeftPart(name: string, value: string)
    requires GoodName(name)
    ensures StripLeft(Part(name, value)) == Part(name, value) && StripLeft(" " + Part(name, value)) == Part(name, value)
  {
    var part := Part(name, value);
    assert (" " + part)[1..] == part;
    assert part[0] == name[0] && !IsWhite(name[0]);
  }

  /** What is left of a printed part is its name and a tail with the tokens of the value. */
  lemma StripPart(name: string, value: string) returns (rest: string)
    requires GoodName(name) && GoodValue(value)
    ensures StripRight(Part(name, value)) == name + rest && (rest == "" || IsWhite(rest[0]))
    ensures Tokens(rest) == Tokens(value) && IsAscii(name + rest)
  {
    hide Tokens, StripRight;
    if value == "" {
      rest := "";
      StripNothing(name);
      assert name + rest == name;
    } else {
      var tail := " " + value;
      assert name + tail == name + " " + value;
      StripKeepsWord(name, tail);
      rest :| StripRight(name + tail) == name + rest && (rest == "" || IsWhite(rest[0])) &&
        Tokens(rest) == Tokens(tail);
      StripRightShape(name + tail);
      LeadingSpace(value);
    }
  }

  lemma LeadingSpace(s: string)
    ensures Tokens(" " + s) == Tokens(s)
  {
    assert (" " + s)[1..] == s;
  }

  /** A printed part, with or without white space in front, is read as its directive. */
  lemma PartRead(policy: seq<Directive>, name: string, value: string, raw: string)
    requires GoodName(name) && GoodValue(value) && !HasName(policy, name)
    requires raw == Part(name, value) || raw == " " + Part(name, value)
    ensures AddToken(policy, raw) == policy + [Directive(name, Tokens(value))]
  {
    StripLeftPart(name, value);
    var rest := StripPart(name, value);
    WordOnly(name, rest);
    hide Tokens, StripRight, StripLeft, Word, HasName, IsAscii;
    assert (name + rest)[|name|..] == rest;
  }

  lemma {:induction false} StripRightShape(s: string)
    ensures StripRight(s) <= s && (IsAscii(s) ==> IsAscii(StripRight(s)))
  {
    if |s| > 0 && IsWhite(s[|s| - 1]) {
      StripRightShape(s[..|s| - 1]);
    }
  }

  lemma StripNothing(name: string)
    requires GoodName(name)
    ensures StripRight(name) == name
  {
  }

  /** A word followed by nothing or by white space is what Word finds. */
  lemma {:induction false} WordOnly(name: string, rest: string)
    requires forall i :: 0 <= i < |name| ==> !IsWhite(name[i])
    requires rest == "" || IsWhite(rest[0])
    ensures Word(name + rest) == name
  {
    if name == "" {
      assert name + rest == rest;
    } else {
      assert (name + rest)[1..] == name[1..] + rest;
      WordOnly(name[1..], rest);
    }
  }

  /** Stripping the end of a name and a value never reaches into the name. */
  lemma {:induction false} StripKeepsWord(name: string, tail: string)
    requires GoodName(name) && |tail| > 0 && IsWhite(tail[0])
    ensures exists rest :: StripRight(name + tail) == name + rest && (rest == "" || IsWhite(rest[0])) &&
                           Tokens(rest) == Tokens(tail)
  {
    var s := name + tail;
    if IsWhite(tail[|tail| - 1]) {
      var shorter := tail[..|tail| - 1];
      assert s[..|s| - 1] == name + shorter;
      assert tail == shorter + [tail[|tail| - 1]];
      TokensTrailing(shorter, tail[|tail| - 1]);
      if shorter == "" {
        assert name + shorter == name;
        StripNothing(name);
        assert StripRight(s) == name + "" && Tokens("") == Tokens(tail);
      } else {
        StripKeepsWord(name, shorter);
      }
    } else {
      assert StripRight(s) == name + tail;
    }
  }

  /** The directives in the order in which they were printed. */
  function Expected(order: seq<string>, d: Directives): seq<Directive>
    requires forall k :: k in order ==> k in d
  {
    if |order| == 0 then [] else [Directive(order[0], Tokens(d[order[0]]))] + Expected(order[1..], d)
  }

  lemma {:induction false} PartsClean(order: seq<string>, d: Directives)
    requires Good(d) && forall k :: k in order ==> k in d
    ensures forall i :: 0 <= i < |order| ==>
              Parts(order, d)[i] == Part(order[i], d[order[i]]) && ';' !in Parts(order, d)[i]
  {
    if |order| > 0 {
      PartsClean(order[1..], d);
      assert GoodName(order[0]) && GoodValue(d[order[0]]);
    }
  }

  /** The names still to come are new to the policy and different. */
  predicate Fresh(policy: seq<Directive>, order: seq<string>) {
    (forall i :: 0 <= i < |order| ==> !HasName(policy, order[i])) &&
    forall i, j :: 0 <= i < j < |order| ==> order[i] != order[j]
  }

  lemma FreshStep(policy: seq<Directive>, order: seq<string>, tokens: seq<string>)
    requires |order| > 0 && Fresh(policy, order)
    ensures !HasName(policy, order[0]) && Fresh(policy + [Directive(order[0], tokens)], order[1..])
  {
    var next, rest := policy + [Directive(order[0], tokens)], order[1..];
    forall i | 0 <= i < |rest| ensures !HasName(next, rest[i]) {
      StillMissing(policy, order[0], tokens, order[i + 1]);
    }
    hide HasName;
  }

  lemma ExpectedStep(policy: seq<Directive>, order: seq<string>, d: Directives)
    requires |order| > 0 && forall k :: k in order ==> k in d
    ensures policy + [Directive(order[0], Tokens(d[order[0]]))] + Expected(order[1..], d) == policy + Expected(order, d)
  {
  }

  lemma {:induction false} AddSpaced(policy: seq<Directive>, order: seq<string>, d: Directives)
    requires Good(d) && (forall k :: k in order ==> k in d) && Fresh(policy, order)
    ensures AddTokens(policy, Spaced(Parts(order, d))) == policy + Expected(order, d)
    decreases |order|
  {
    if |order| == 0 {
      assert policy + [] == policy;
    } else {
      hide Tokens, AddToken, GoodName, GoodValue, Parts, Spaced, Part, Fresh, HasName, Expected;
      var k := order[0];
      FreshStep(policy, order, Tokens(d[k]));
      PartRead(policy, k, d[k], " " + Part(k, d[k]));
      SpacedStep(order, d);
      AddSpaced(policy + [Directive(k, Tokens(d[k]))], order[1..], d);
      ExpectedStep(policy, order, d);
    }
  }

  lemma StillMissing(policy: seq<Directive>, k: string, tokens: seq<string>, name: string)
    requires !HasName(policy, name) && name != k
    ensures !HasName(policy + [Directive(k, tokens)], name)
  {
  }

  lemma SpacedStep(order: seq<string>, d: Directives)
    requires |order| > 0 && forall k :: k in order ==> k in d
    ensures var raws := Spaced(Parts(order, d));
            |raws| > 0 && raws[0] == " " + Part(order[0], d[order[0]]) && raws[1..] == Spaced(Parts(order[1..], d))
  {
    var parts := Parts(order, d);
    assert parts[1..] == Parts(order[1..], d);
    assert Spaced(parts)[1..] == Spaced(parts[1..]);
  }

  /**
   Whatever order the map is visited in, the printed policy is read back as the
   same directives with the same tokens.
   */
  lemma RoundTrip(order: seq<string>, d: Directives)
    requires Good(d) && IsOrder(order, d)
    ensures Parse(Join(Parts(order, d))) == Expected(order, d)
  {
    if |order| == 0 {
      EmptyPolicy();
    } else {
      hide Tokens, StripRight, GoodName, GoodValue, Join, SplitSemi, AddToken, Expected, HasName, Part;
      var parts, k := Parts(order, d), order[0];
      var first := [Directive(k, Tokens(d[k]))];
      PartsClean(order, d);
      SplitJoin(parts);
      NothingNamed(order);
      FreshStep([], order, Tokens(d[k]));
      PartRead([], k, d[k], parts[0]);
      assert [] + first == first;
      assert parts[1..] == Parts(order[1..], d);
      assert ([parts[0]] + Spaced(parts[1..]))[1..] == Spaced(parts[1..]);
      hide Parts, Spaced, Fresh;
      AddSpaced(first, order[1..], d);
      ExpectedStep([], order, d);
      assert [] + Expected(order, d) == Expected(order, d);
    }
  }

  lemma NothingNamed(order: seq<string>)
    requires forall i, j :: 0 <= i < j < |order| ==> order[i] != order[j]
    ensures Fresh([], order)
  {
  }

  lemma EmptyPolicy()
    ensures Parse("") == []
  {
    assert SplitSemi("") == [""] && [""][1..] == [];
  }

  /** A policy as a map from names to tokens. */
  ghost predicate Means(policy: seq<Directive>, m: map<string, seq<string>>) {
    (forall k :: k in m <==> HasName(policy, k)) &&
    (forall i :: 0 <= i < |policy| ==> policy[i].name in m && m[policy[i].name] == policy[i].tokens) &&
    forall i, j :: 0 <= i < j < |policy| ==> policy[i].name != policy[j].name
  }

  lemma {:induction false} ExpectedAt(order: seq<string>, d: Directives)
    requires forall k :: k in order ==> k in d
    ensures |Expected(order, d)| == |order|
    ensures forall i :: 0 <= i < |order| ==> Expected(order, d)[i] == Directive(order[i], Tokens(d[order[i]]))
  {
    if |order| > 0 {
      ExpectedAt(order[1..], d);
    }
  }

  function Meaning(d: Directives): (m: map<string, seq<string>>)
    ensures m.Keys == d.Keys && forall k :: k in d ==> m[k] == Tokens(d[k])
  {
    map k | k in d :: Tokens(d[k])
  }

  lemma ExpectedNames(order: seq<string>, d: Directives, k: string)
    requires IsOrder(order, d)
    ensures HasName(Expected(order, d), k) <==> k in d
  {
    ExpectedAt(order, d);
    hide Tokens, Expected;
    var policy := Expected(order, d);
    if k in d {
      var i :| 0 <= i < |order| && order[i] == k;
      assert policy[i].name == k;
    }
    if HasName(policy, k) {
      var i :| 0 <= i < |policy| && policy[i].name == k;
      assert order[i] in order;
    }
  }

  lemma ExpectedRows(order: seq<string>, d: Directives)
    requires IsOrder(order, d)
    ensures var policy, m := Expected(order, d), Meaning(d);
            (forall i :: 0 <= i < |policy| ==> policy[i].name in m && m[policy[i].name] == policy[i].tokens) &&
            forall i, j :: 0 <= i < j < |policy| ==> policy[i].name != policy[j].name
  {
    ExpectedAt(order, d);
    hide Tokens, Expected;
    assert forall i :: 0 <= i < |order| ==> order[i] in order;
  }

  lemma ExpectedMeans(order: seq<string>, d: Directives)
    requires IsOrder(order, d)
    ensures Means(Expected(order, d), Meaning(d))
  {
    ExpectedRows(order, d);
    hide Tokens, Expected, HasName, IsOrder;
    forall k ensures k in Meaning(d) <==> HasName(Expected(order, d), k) {
      ExpectedNames(order, d, k);
    }
  }

  /** Printing and parsing gives each name its own tokens, each name once. */
  lemma RoundTripMeaning(order: seq<string>, d: Directives)
    requires Good(d) && IsOrder(order, d)
    ensures Means(Parse(Join(Parts(order, d))), Meaning(d))
  {
    hide *;
    RoundTrip(order, d);
    ExpectedMeans(order, d);
  }

  lemma PrintedMeaning(csp: string, d: Directives)
    requires Good(d) && Prints(csp, d)
    ensures Means(Parse(csp), Meaning(d))
  {
    hide Good, Parse, Means, Join, Parts;
    var order :| IsOrder(order, d) && csp == Join(Parts(order, d));
    RoundTripMeaning(order, d);
  }

  /** buildCSP, which ranges over a map. */
  method BuildCSP(d: Directives) returns (csp: string)
    ensures Prints(csp, d)
    ensures Good(d) ==> Means(Parse(csp), Meaning(d))
  {
    hide Good, Means, Parse, Join;
    var parts := [];
    var keys := d.Keys;
    ghost var order := [];
    while keys != {}
      invariant keys <= d.Keys
      invariant forall k :: k in order <==> k in d && k !in keys
      invariant forall i, j :: 0 <= i < j < |order| ==> order[i] != order[j]
      invariant parts == Parts(order, d)
      decreases keys
    {
      var k :| k in keys;
      PartsAppend(order, k, d);
      if d[k] == "" {
        parts := parts + [k];
      } else {
        parts := parts + [k + " " + d[k]];
      }
      order := order + [k];
      keys := keys - {k};
    }
    csp := Join(parts);
    assert Prints(csp, d) by {
      assert IsOrder(order, d);
    }
    if Good(d) {
      PrintedMeaning(csp, d);
    }
  }

  // What is not read back

  /** What a parsed policy can hold at all. */
  predicate CleanToken(s: string) {
    forall i :: 0 <= i < |s| ==> !IsWhite(s[i]) && s[i] != ';' && s[i] <= '\U{7F}'
  }

  predicate CleanDirective(d: Directive) {
    GoodName(d.name) && forall i :: 0 <= i < |d.tokens| ==> CleanToken(d.tokens[i])
  }

  predicate AllClean(policy: seq<Directive>) {
    forall i :: 0 <= i < |policy| ==> CleanDirective(policy[i])
  }

  predicate NoSemicolon(raws: seq<string>) {
    forall i :: 0 <= i < |raws| ==> ';' !in raws[i]
  }

  /** The character is in some token. */
  predicate Covered(tokens: seq<string>, c: char) {
    exists k :: 0 <= k < |tokens| && c in tokens[k]
  }

  lemma {:induction false} SplitClean(s: string)
    ensures NoSemicolon(SplitSemi(s))
  {
    if |s| > 0 {
      SplitClean(s[1..]);
    }
  }

  lemma {:induction false} StripClean(s: string)
    ensures forall c :: c in StripLeft(s) ==> c in s
    ensures |StripLeft(s)| > 0 ==> !IsWhite(StripLeft(s)[0])
  {
    if |s| > 0 && IsWhite(s[0]) {
      StripClean(s[1..]);
    }
  }

  lemma {:induction false} WordClean(s: string)
    ensures forall i :: 0 <= i < |Word(s)| ==> !IsWhite(Word(s)[i]) && Word(s)[i] in s
    ensures |s| > 0 && !IsWhite(s[0]) ==> Word(s) != ""
  {
    if |s| > 0 && !IsWhite(s[0]) {
      WordClean(s[1..]);
    }
  }

  lemma {:induction false} TokensClean(s: string)
    requires IsAscii(s) && ';' !in s
    ensures forall i :: 0 <= i < |Tokens(s)| ==> CleanToken(Tokens(s)[i])
    decreases |s|
  {
    if |s| > 0 {
      if IsWhite(s[0]) {
        TokensClean(s[1..]);
      } else {
        WordClean(s);
        TokensClean(s[|Word(s)|..]);
      }
    }
  }

  lemma LowerName(word: string)
    requires word != "" && IsAscii(word) && forall i :: 0 <= i < |word| ==> !IsWhite(word[i]) && word[i] != ';'
    ensures GoodName(Lower(word))
  {
  }

  lemma AddTokenClean(policy: seq<Directive>, raw: string)
    requires ';' !in raw && AllClean(policy)
    ensures AllClean(AddToken(policy, raw))
  {
    var left := StripLeft(raw);
    var token := StripRight(left);
    StripClean(raw);
    StripRightShape(left);
    if token != "" && IsAscii(token) {
      assert token[0] == left[0];
      var word := Word(token);
      WordClean(token);
      forall i | 0 <= i < |word| ensures word[i] <= '\U{7F}' && word[i] != ';' {
        assert word[i] == token[i] && token[i] in left;
      }
      LowerName(word);
      var rest := token[|word|..];
      forall i | 0 <= i < |rest| ensures rest[i] != ';' && rest[i] <= '\U{7F}' {
        assert rest[i] == token[i + |word|] && token[i + |word|] in left;
      }
      TokensClean(rest);
    }
    hide GoodName, CleanToken, Tokens, Word, StripLeft, StripRight;
  }

  lemma {:induction false} AddTokensClean(policy: seq<Directive>, raws: seq<string>)
    requires NoSemicolon(raws) && AllClean(policy)
    ensures AllClean(AddTokens(policy, raws))
    decreases |raws|
  {
    hide AllClean, AddToken;
    if |raws| > 0 {
      AddTokenClean(policy, raws[0]);
      AddTokensClean(AddToken(policy, raws[0]), raws[1..]);
    }
  }

  predicate OncePerName(policy: seq<Directive>) {
    forall i, j :: 0 <= i < j < |policy| ==> policy[i].name != policy[j].name
  }

  lemma {:induction false} AddTokensOnce(policy: seq<Directive>, raws: seq<string>)
    requires OncePerName(policy)
    ensures OncePerName(AddTokens(policy, raws))
    decreases |raws|
  {
    hide StripLeft, StripRight, IsAscii, Word, Tokens, Lower;
    if |raws| > 0 {
      AddTokensOnce(AddToken(policy, raws[0]), raws[1..]);
    }
  }

  lemma CleanLetters(d: Directive)
    requires CleanDirective(d)
    ensures forall c :: c in d.name ==> c <= '\U{7F}' && !('A' <= c <= 'Z') && c != ';' && !IsWhite(c)
    ensures forall t, c :: t in d.tokens && c in t ==> c <= '\U{7F}' && c != ';' && !IsWhite(c)
  {
    LowerFixed(d.name);
  }

  /**
   Whatever text is parsed, each name occurs once, without capitals, and no name
   and no token holds white space, a semicolon or a non-ASCII character.
   */
  lemma ParsedClean(s: string)
    ensures AllClean(Parse(s))
    ensures forall i, j :: 0 <= i < j < |Parse(s)| ==> Parse(s)[i].name != Parse(s)[j].name
    ensures forall d, c :: d in Parse(s) && c in d.name ==>
                             c <= '\U{7F}' && !('A' <= c <= 'Z') && c != ';' && !IsWhite(c)
    ensures forall d, t, c :: d in Parse(s) && t in d.tokens && c in t ==> c <= '\U{7F}' && c != ';' && !IsWhite(c)
  {
    SplitClean(s);
    assert AllClean([]) && OncePerName([]);
    hide AddTokens, SplitSemi, NoSemicolon, CleanDirective;
    AddTokensClean([], SplitSemi(s));
    AddTokensOnce([], SplitSemi(s));
    forall d | d in Parse(s)
      ensures forall c :: c in d.name ==> c <= '\U{7F}' && !('A' <= c <= 'Z') && c != ';' && !IsWhite(c)
      ensures forall t, c :: t in d.tokens && c in t ==> c <= '\U{7F}' && c != ';' && !IsWhite(c)
    {
      CleanLetters(d);
    }
  }

  /** Every character that is not white space is in some token. */
  lemma {:induction false} TokensCover(s: string, i: nat)
    requires i < |s| && !IsWhite(s[i])
    ensures Covered(Tokens(s), s[i])
    decreases |s|
  {
    if IsWhite(s[0]) {
      TokensCover(s[1..], i - 1);
    } else {
      var w := |Word(s)|;
      WordClean(s);
      var rest := Tokens(s[w..]);
      assert Tokens(s) == [Word(s)] + rest;
      if i < w {
        assert ([Word(s)] + rest)[0][i] == s[i];
      } else {
        TokensCover(s[w..], i - w);
        var k :| 0 <= k < |rest| && s[w..][i - w] in rest[k];
        assert ([Word(s)] + rest)[k + 1] == rest[k];
      }
    }
  }

  lemma CleanValue(value: string)
    requires forall k :: 0 <= k < |Tokens(value)| ==> CleanToken(Tokens(value)[k])
    ensures GoodValue(value)
  {
    forall i | 0 <= i < |value| ensures value[i] != ';' && value[i] <= '\U{7F}' {
      if !IsWhite(value[i]) {
        TokensCover(value, i);
        var k :| 0 <= k < |Tokens(value)| && value[i] in Tokens(value)[k];
        assert CleanToken(Tokens(value)[k]);
      }
    }
  }

  /**
   A printed policy is read back exactly if every name is lower case and ASCII
   without white space and semicolon, and every value ASCII without semicolon.
   */
  lemma RoundTripIff(order: seq<string>, d: Directives)
    requires IsOrder(order, d)
    ensures Parse(Join(Parts(order, d))) == Expected(order, d) <==> Good(d)
  {
    if Good(d) {
      RoundTrip(order, d);
    }
    if Parse(Join(Parts(order, d))) == Expected(order, d) {
      ParsedClean(Join(Parts(order, d)));
      ExpectedAt(order, d);
      hide Parse, Join, Parts, GoodName, CleanToken, Tokens, Expected, GoodValue;
      forall k | k in d ensures GoodName(k) && GoodValue(d[k]) {
        var i :| 0 <= i < |order| && order[i] == k;
        assert CleanDirective(Expected(order, d)[i]);
        CleanValue(d[k]);
      }
    }
  }

  // Nonces

  const SCRIPT := "script-src"
  const STYLE := "style-src"
  const UNSAFE := "'unsafe-inline'"

  function NonceSource(nonce: string): string {
    "'nonce-" + nonce + "'"
  }

  /** strings.Replace(s, sub, "", 1) */
  function RemoveFirst(s: string, sub: string): string {
    if sub <= s then s[|sub|..] else if |s| == 0 then "" else [s[0]] + RemoveFirst(s[1..], sub)
  }

  function WithNonce(d: Directives, nonce: string): Directives {
    var scripted := if SCRIPT in d then d[SCRIPT := d[SCRIPT] + " " + NonceSource(nonce)] else d;
    if STYLE in d
    then scripted[STYLE := Sanitize.TrimSpace(RemoveFirst(d[STYLE], UNSAFE)) + " " + NonceSource(nonce)]
    else scripted
  }

  /** Text on the two sides of white space is split separately. */
  lemma {:induction false} TokensConcat(a: string, b: string)
    requires b == "" || IsWhite(b[0]) || a == "" || IsWhite(a[|a| - 1])
    ensures Tokens(a + b) == Tokens(a) + Tokens(b)
    decreases |a|
  {
    if a == "" {
      assert a + b == b;
    } else if b == "" {
      assert a + b == a;
    } else if IsWhite(a[0]) {
      assert (a + b)[1..] == a[1..] + b;
      TokensConcat(a[1..], b);
    } else {
      var w := Word(a);
      WordConcat(a, b);
      hide Tokens, Word;
      TokensConcat(a[|w|..], b);
      WordFirst(a, b);
    }
  }

  lemma FirstToken(s: string)
    requires s != "" && !IsWhite(s[0])
    ensures Tokens(s) == [Word(s)] + Tokens(s[|Word(s)|..])
  {
  }

  lemma WordFirst(a: string, b: string)
    requires a != "" && !IsWhite(a[0]) && Word(a + b) == Word(a)
    requires Tokens(a[|Word(a)|..] + b) == Tokens(a[|Word(a)|..]) + Tokens(b)
    ensures Tokens(a + b) == Tokens(a) + Tokens(b)
  {
    hide Tokens, Word;
    FirstToken(a);
    FirstToken(a + b);
    DropConcat(a, b, |Word(a)|);
    ConcatAssoc([Word(a)], Tokens(a[|Word(a)|..]), Tokens(b));
  }

  lemma DropConcat(a: string, b: string, n: nat)
    requires n <= |a|
    ensures (a + b)[n..] == a[n..] + b
  {
  }

  lemma ConcatAssoc(a: seq<string>, b: seq<string>, c: seq<string>)
    ensures (a + b) + c == a + (b + c)
  {
  }

  lemma {:induction false} WordConcat(a: string, b: string)
    requires a != "" && b != "" && (IsWhite(b[0]) || IsWhite(a[|a| - 1]))
    ensures Word(a + b) == Word(a)
    ensures Word(a) == a ==> !IsWhite(a[|a| - 1])
  {
    if !IsWhite(a[0]) {
      assert (a + b)[1..] == a[1..] + b;
      if |a| > 1 {
        WordConcat(a[1..], b);
        assert a == [a[0]] + a[1..];
        if Word(a) == a {
          assert Word(a[1..]) == Word(a)[1..] == a[1..];
        }
      } else {
        assert a[1..] + b == b;
      }
    }
  }

  predicate GoodNonce(nonce: string) {
    IsAscii(nonce) && ';' !in nonce && forall i :: 0 <= i < |nonce| ==> !IsWhite(nonce[i])
  }

  lemma {:induction false} OneToken(s: string)
    requires s != "" && forall i :: 0 <= i < |s| ==> !IsWhite(s[i])
    ensures Tokens(s) == [s]
  {
    WordOnly(s, "");
    assert s + "" == s;
    assert s[|s|..] == "";
  }

  lemma NonceClean(nonce: string)
    requires GoodNonce(nonce)
    ensures var n := NonceSource(nonce); forall i :: 0 <= i < |n| ==> !IsWhite(n[i]) && n[i] != ';' && n[i] <= '\U{7F}'
  {
    var n := NonceSource(nonce);
    assert forall i :: 7 <= i < |n| - 1 ==> n[i] == nonce[i - 7];
  }

  lemma NonceToken(nonce: string)
    requires GoodNonce(nonce)
    ensures Tokens(" " + NonceSource(nonce)) == [NonceSource(nonce)] && GoodValue(NonceSource(nonce))
  {
    NonceClean(nonce);
    hide NonceSource, Tokens, IsWhite, GoodNonce;
    LeadingSpace(NonceSource(nonce));
    assert NonceSource(nonce) != "" by { NonceNotEmpty(nonce); }
    OneToken(NonceSource(nonce));
  }

  lemma NonceNotEmpty(nonce: string)
    ensures NonceSource(nonce) != ""
  {
  }

  lemma AppendNonce(value: string, nonce: string)
    requires GoodValue(value) && GoodNonce(nonce)
    ensures Tokens(value + " " + NonceSource(nonce)) == Tokens(value) + [NonceSource(nonce)]
    ensures GoodValue(value + " " + NonceSource(nonce))
  {
    NonceToken(nonce);
    hide Tokens, NonceSource, GoodNonce;
    var tail := " " + NonceSource(nonce);
    assert value + " " + NonceSource(nonce) == value + tail;
    TokensConcat(value, tail);
  }

  /** On ASCII text without vertical tab, TrimSpace strips what the parser skips anyway. */
  lemma {:induction false} TrimTokens(s: string)
    requires IsAscii(s) && '\U{0B}' !in s
    ensures Tokens(Sanitize.TrimSpace(s)) == Tokens(s)
    ensures IsAscii(Sanitize.TrimSpace(s)) && (forall c :: c in Sanitize.TrimSpace(s) ==> c in s)
  {
    Sanitize.TrimShape(s);
    TrimLeftTokens(s);
    Sanitize.TrimLeftShape(s);
    var left := Sanitize.TrimLeft(s);
    forall i | 0 <= i < |left| ensures left[i] <= '\U{7F}' {
      assert left[i] in left;
    }
    TrimRightTokens(left);
    var r := Sanitize.TrimSpace(s);
    forall i | 0 <= i < |r| ensures r[i] <= '\U{7F}' {
      assert r[i] in r;
    }
  }

  lemma {:induction false} TrimLeftTokens(s: string)
    requires IsAscii(s) && '\U{0B}' !in s
    ensures Tokens(Sanitize.TrimLeft(s)) == Tokens(s)
  {
    if |s| > 0 && Sanitize.IsSpace(s[0]) {
      assert s[0] in s;
      TrimLeftTokens(s[1..]);
    }
  }

  lemma {:induction false} TrimRightTokens(s: string)
    requires IsAscii(s) && '\U{0B}' !in s
    ensures Tokens(Sanitize.TrimRight(s)) == Tokens(s)
  {
    if |s| > 0 && Sanitize.IsSpace(s[|s| - 1]) {
      var n := |s| - 1;
      assert s[n] in s;
      TrimRightTokens(s[..n]);
      TokensTrailing(s[..n], s[n]);
      assert s == s[..n] + [s[n]];
    }
  }

  lemma {:induction false} RemoveFirstShape(s: string, sub: string)
    ensures forall c :: c in RemoveFirst(s, sub) ==> c in s
    ensures IsAscii(s) ==> IsAscii(RemoveFirst(s, sub))
  {
    if sub <= s {
    } else if |s| > 0 {
      RemoveFirstShape(s[1..], sub);
    }
  }

  /** Where a keyword stands alone, removing it removes that token and no other. */
  lemma RemoveKeyword(a: string, kw: string, b: string)
    requires a == "" || b == "" || IsWhite(a[|a| - 1]) || IsWhite(b[0])
    requires forall i :: 0 <= i < |a| ==> !(kw <= (a + (kw + b))[i..])
    ensures Tokens(RemoveFirst(a + (kw + b), kw)) == Tokens(a) + Tokens(b)
  {
    RemoveFirstAt(a, kw, b);
    hide Tokens, RemoveFirst;
    TokensConcat(a, b);
  }

  lemma {:induction false} RemoveFirstAt(a: string, kw: string, b: string)
    requires forall i :: 0 <= i < |a| ==> !(kw <= (a + (kw + b))[i..])
    ensures RemoveFirst(a + (kw + b), kw) == a + b
  {
    var tail := kw + b;
    if a == "" {
      assert a + tail == tail && a + b == b && kw <= tail && tail[|kw|..] == b;
    } else {
      var s, rest := a + tail, a[1..] + tail;
      assert s[0..] == s;
      assert s[1..] == rest;
      forall i | 0 <= i < |a[1..]| ensures !(kw <= rest[i..]) {
        assert rest[i..] == s[i + 1..];
      }
      RemoveFirstAt(a[1..], kw, b);
      assert [s[0]] + (a[1..] + b) == a + b;
    }
  }

  predicate IsWord(s: string) {
    s != "" && forall i :: 0 <= i < |s| ==> !IsWhite(s[i])
  }

  /** The keyword occurs only as a token of its own. */
  predicate WholeTokens(v: string, kw: string) {
    forall i :: 0 <= i < |v| && kw <= v[i..] ==>
                  (i == 0 || IsWhite(v[i - 1])) && (i + |kw| == |v| || IsWhite(v[i + |kw|]))
  }

  function WithoutFirst(tokens: seq<string>, x: string): seq<string> {
    if |tokens| == 0 then []
    else if tokens[0] == x then tokens[1..]
    else [tokens[0]] + WithoutFirst(tokens[1..], x)
  }

  function Times(tokens: seq<string>, x: string): nat {
    if |tokens| == 0 then 0 else (if tokens[0] == x then 1 else 0) + Times(tokens[1..], x)
  }

  lemma {:induction false} TimesIn(tokens: seq<string>, x: string)
    ensures x in tokens <==> Times(tokens, x) >= 1
    ensures x in WithoutFirst(tokens, x) <==> Times(tokens, x) >= 2
  {
    if |tokens| > 0 {
      TimesIn(tokens[1..], x);
      assert tokens == [tokens[0]] + tokens[1..];
    }
  }

  lemma {:induction false} WithoutFirstAt(a: seq<string>, x: string, b: seq<string>)
    requires x !in a
    ensures WithoutFirst(a + ([x] + b), x) == a + b
  {
    var tail := [x] + b;
    if |a| == 0 {
      assert a + tail == tail && tail[1..] == b && a + b == b;
    } else {
      assert (a + tail)[1..] == a[1..] + tail;
      WithoutFirstAt(a[1..], x, b);
      assert [a[0]] + (a[1..] + b) == a + b;
    }
  }

  lemma {:induction false} WithoutNone(tokens: seq<string>, x: string)
    requires x !in tokens
    ensures WithoutFirst(tokens, x) == tokens
  {
    if |tokens| > 0 {
      WithoutNone(tokens[1..], x);
    }
  }

  /** A token is a piece of the text. */
  lemma {:induction false} TokenOccurs(v: string, x: string)
    requires x in Tokens(v)
    ensures exists i :: 0 <= i < |v| && x <= v[i..]
    decreases |v|
  {
    if IsWhite(v[0]) {
      TokenOccurs(v[1..], x);
      var i :| 0 <= i < |v[1..]| && x <= v[1..][i..];
      assert v[1..][i..] == v[i + 1..];
    } else if x == Word(v) {
      assert v[0..] == v;
    } else {
      var w := |Word(v)|;
      assert Tokens(v) == [Word(v)] + Tokens(v[w..]);
      TokenOccurs(v[w..], x);
      var i :| 0 <= i < |v[w..]| && x <= v[w..][i..];
      assert v[w..][i..] == v[i + w..];
    }
  }

  /** The text before and after the first occurrence of a keyword. */
  lemma {:induction false} SplitAtFirst(v: string, kw: string) returns (found: bool, a: string, b: string)
    requires kw != ""
    ensures found ==> v == a + (kw + b) && forall i :: 0 <= i < |a| ==> !(kw <= v[i..])
    ensures !found ==> forall i :: 0 <= i < |v| ==> !(kw <= v[i..])
  {
    a, b := "", "";
    if v == "" {
      found := false;
    } else if kw <= v {
      found, b := true, v[|kw|..];
      assert kw + b == v && "" + (kw + b) == v;
    } else {
      var head;
      found, head, b := SplitAtFirst(v[1..], kw);
      a := [v[0]] + head;
      assert found ==> a + (kw + b) == [v[0]] + (head + (kw + b));
      forall i | 0 <= i < |v| && (found ==> i < |a|) ensures !(kw <= v[i..]) {
        if i == 0 {
          assert v[0..] == v;
        } else {
          assert v[1..][i - 1..] == v[i..];
        }
      }
    }
  }

  lemma {:induction false} RemoveFirstNone(v: string, sub: string)
    requires sub != "" && forall i :: 0 <= i < |v| ==> !(sub <= v[i..])
    ensures RemoveFirst(v, sub) == v
  {
    if |v| > 0 {
      assert v[0..] == v;
      forall i | 0 <= i < |v[1..]| ensures !(sub <= v[1..][i..]) {
        assert v[1..][i..] == v[i + 1..];
      }
      RemoveFirstNone(v[1..], sub);
    }
  }

  lemma OccursLonger(a: string, b: string, kw: string, i: int)
    requires 0 <= i <= |a| && kw <= a[i..]
    ensures kw <= (a + b)[i..]
  {
    assert (a + b)[i..] == a[i..] + b;
  }

  lemma NotBefore(a: string, b: string, kw: string)
    requires forall i :: 0 <= i < |a| ==> !(kw <= (a + b)[i..])
    ensures kw !in Tokens(a)
  {
    if kw in Tokens(a) {
      TokenOccurs(a, kw);
      var i :| 0 <= i < |a| && kw <= a[i..];
      OccursLonger(a, b, kw, i);
    }
  }

  lemma WholeAt(v: string, a: string, kw: string, b: string)
    requires WholeTokens(v, kw) && kw != "" && v == a + (kw + b)
    ensures (a == "" || IsWhite(a[|a| - 1])) && (b == "" || IsWhite(b[0]))
  {
    assert v[|a|..] == kw + b && kw <= v[|a|..];
    if a != "" {
      assert v[|a| - 1] == a[|a| - 1];
    }
    if b != "" {
      assert v[|a| + |kw|] == (kw + b)[|kw|] == b[0];
    }
  }

  lemma KeywordThen(kw: string, b: string)
    requires IsWord(kw) && (b == "" || IsWhite(b[0]))
    ensures Tokens(kw + b) == [kw] + Tokens(b)
  {
    OneToken(kw);
    hide Tokens;
    TokensConcat(kw, b);
  }

  lemma AroundKeyword(a: string, kw: string, b: string)
    requires IsWord(kw) && (a == "" || IsWhite(a[|a| - 1])) && (b == "" || IsWhite(b[0]))
    ensures Tokens(a + (kw + b)) == Tokens(a) + ([kw] + Tokens(b))
  {
    hide Tokens;
    KeywordThen(kw, b);
    TokensConcat(a, kw + b);
  }

  lemma RemovesFound(a: string, kw: string, b: string)
    requires IsWord(kw) && (a == "" || IsWhite(a[|a| - 1])) && (b == "" || IsWhite(b[0]))
    requires forall i :: 0 <= i < |a| ==> !(kw <= (a + (kw + b))[i..])
    ensures Tokens(RemoveFirst(a + (kw + b), kw)) == WithoutFirst(Tokens(a + (kw + b)), kw)
  {
    hide Tokens, RemoveFirst, WithoutFirst;
    RemoveKeyword(a, kw, b);
    AroundKeyword(a, kw, b);
    NotBefore(a, kw + b, kw);
    hide IsWhite, IsWord;
    WithoutFirstAt(Tokens(a), kw, Tokens(b));
  }

  /** Removing the first occurrence removes the first such token and no other. */
  lemma RemovesOneToken(v: string, kw: string)
    requires WholeTokens(v, kw) && IsWord(kw)
    ensures Tokens(RemoveFirst(v, kw)) == WithoutFirst(Tokens(v), kw)
  {
    var found, a, b := SplitAtFirst(v, kw);
    hide Tokens, WholeTokens, RemoveFirst, WithoutFirst;
    if found {
      WholeAt(v, a, kw, b);
      RemovesFound(a, kw, b);
    } else {
      assert v + "" == v;
      NotBefore(v, "", kw);
      RemoveFirstNone(v, kw);
      WithoutNone(Tokens(v), kw);
    }
  }

  /** The tokens a policy with a nonce should have. */
  function NonceTokens(d: Directives, nonce: string, k: string): seq<string>
    requires k in d
  {
    if k == SCRIPT then Tokens(d[k]) + [NonceSource(nonce)]
    else if k == STYLE && WholeTokens(d[k], UNSAFE) then WithoutFirst(Tokens(d[k]), UNSAFE) + [NonceSource(nonce)]
    else if k == STYLE then Tokens(RemoveFirst(d[k], UNSAFE)) + [NonceSource(nonce)]
    else Tokens(d[k])
  }

  function NonceMeaning(d: Directives, nonce: string): (m: map<string, seq<string>>)
    ensures m.Keys == d.Keys && forall k :: k in d ==> m[k] == NonceTokens(d, nonce, k)
  {
    map k | k in d :: NonceTokens(d, nonce, k)
  }

  lemma StyleValue(value: string, nonce: string)
    requires GoodValue(value) && '\U{0B}' !in value && GoodNonce(nonce) && IsWord(UNSAFE)
    ensures var style := Sanitize.TrimSpace(RemoveFirst(value, UNSAFE)) + " " + NonceSource(nonce);
            GoodValue(style) &&
            Tokens(style) == (if WholeTokens(value, UNSAFE) then WithoutFirst(Tokens(value), UNSAFE)
                              else Tokens(RemoveFirst(value, UNSAFE))) + [NonceSource(nonce)]
  {
    var style := RemoveFirst(value, UNSAFE);
    RemoveFirstShape(value, UNSAFE);
    assert '\U{0B}' !in style && ';' !in style;
    TrimTokens(style);
    assert GoodValue(Sanitize.TrimSpace(style));
    hide Tokens, WholeTokens, RemoveFirst, Sanitize.TrimSpace, WithoutFirst, GoodNonce, NonceSource, IsWord;
    AppendNonce(Sanitize.TrimSpace(style), nonce);
    if WholeTokens(value, UNSAFE) {
      RemovesOneToken(value, UNSAFE);
    }
  }

  lemma NonceValue(d: Directives, nonce: string, k: string)
    requires Good(d) && GoodNonce(nonce) && k in d && (k == STYLE ==> '\U{0B}' !in d[k])
    ensures GoodValue(WithNonce(d, nonce)[k]) && Tokens(WithNonce(d, nonce)[k]) == NonceTokens(d, nonce, k)
  {
    assert GoodName(k) && GoodValue(d[k]);
    NonceIsNotUnsafe(nonce);
    assert |STYLE| != |SCRIPT|;
    hide Tokens, WholeTokens, RemoveFirst, Sanitize.TrimSpace, WithoutFirst, GoodNonce, NonceSource, GoodName,
      GoodValue;
    if k == STYLE {
      StyleValue(d[k], nonce);
    } else if k == SCRIPT {
      AppendNonce(d[k], nonce);
    }
  }

  lemma NonceIsNotUnsafe(nonce: string)
    ensures NonceSource(nonce) != UNSAFE && IsWord(UNSAFE) && |UNSAFE| > 0
  {
    assert NonceSource(nonce)[1] == 'n' && UNSAFE[1] == 'u';
  }

  /**
   Where the keyword stands only as a token of its own, style-src of the policy
   read back still holds it exactly if it held it at least twice before.
   */
  lemma UnsafeSurvivesIff(d: Directives, nonce: string)
    requires STYLE in d && WholeTokens(d[STYLE], UNSAFE)
    ensures UNSAFE in NonceMeaning(d, nonce)[STYLE] <==> Times(Tokens(d[STYLE]), UNSAFE) >= 2
  {
    TimesIn(Tokens(d[STYLE]), UNSAFE);
    NonceIsNotUnsafe(nonce);
    hide Tokens, WholeTokens, WithoutFirst, Times, NonceSource;
  }

  lemma PrefixAt(kw: string, s: string, j: int)
    requires kw <= s && 0 <= j < |kw|
    ensures kw[j] == s[j]
  {
  }

  lemma InnerSpace(v: string, kw: string, i: int)
    requires v == kw + " " + kw && IsWord(kw) && 0 < i <= |kw|
    ensures !(kw <= v[i..])
  {
    assert v[i..][|kw| - i] == v[|kw|] == ' ';
    if kw <= v[i..] {
      PrefixAt(kw, v[i..], |kw| - i);
    }
  }

  lemma TwiceWhole(v: string, kw: string)
    requires v == kw + " " + kw && IsWord(kw)
    ensures WholeTokens(v, kw)
  {
    forall i | 0 <= i < |v| && kw <= v[i..] ensures i == 0 || i == |kw| + 1 {
      if 0 < i <= |kw| {
        InnerSpace(v, kw, i);
      }
    }
    assert v[|kw|] == ' ';
  }

  lemma TwiceTokens(kw: string)
    requires IsWord(kw)
    ensures Tokens(kw + " " + kw) == [kw, kw]
  {
    OneToken(kw);
    hide Tokens;
    TokensConcat(kw, " " + kw);
    LeadingSpace(kw);
    assert kw + " " + kw == kw + (" " + kw);
    assert [kw] + [kw] == [kw, kw];
  }

  lemma OnceTimes(x: string)
    ensures Times([x], x) == 1
  {
    assert [x][1..] == [];
  }

  lemma TwiceTimes(x: string)
    ensures Times([x, x], x) == 2 && WithoutFirst([x, x], x) == [x]
  {
    OnceTimes(x);
    assert [x, x][1..] == [x];
  }

  /** A style-src that names the keyword twice keeps it next to the nonce. */
  lemma UnsafeTwice(d: Directives, nonce: string)
    requires STYLE in d && d[STYLE] == UNSAFE + " " + UNSAFE
    ensures WholeTokens(d[STYLE], UNSAFE) && Times(Tokens(d[STYLE]), UNSAFE) == 2
    ensures NonceMeaning(d, nonce)[STYLE] == [UNSAFE, NonceSource(nonce)]
  {
    NonceIsNotUnsafe(nonce);
    hide Tokens, WholeTokens, NonceSource, Times, WithoutFirst;
    TwiceWhole(d[STYLE], UNSAFE);
    TwiceTokens(UNSAFE);
    TwiceTimes(UNSAFE);
    assert |STYLE| != |SCRIPT|;
    assert NonceMeaning(d, nonce)[STYLE] == WithoutFirst(Tokens(d[STYLE]), UNSAFE) + [NonceSource(nonce)];
    assert [UNSAFE] + [NonceSource(nonce)] == [UNSAFE, NonceSource(nonce)];
  }

  /** The tokens of style-src without the first occurrence of the keyword. */
  function StyleKept(value: string): seq<string> {
    if WholeTokens(value, "'unsafe-inline'") then WithoutFirst(Tokens(value), "'unsafe-inline'")
    else Tokens(RemoveFirst(value, "'unsafe-inline'"))
  }

  lemma NonceRow(d: Directives, nonce: string, k: string)
    requires k in d
    ensures NonceTokens(d, nonce, k) ==
            if k == "script-src" then Tokens(d[k]) + ["'nonce-" + nonce + "'"]
            else if k == "style-src" then StyleKept(d[k]) + ["'nonce-" + nonce + "'"]
            else Tokens(d[k])
  {
    hide Tokens, WholeTokens, RemoveFirst, WithoutFirst;
  }

  lemma NonceRows(policy: seq<Directive>, d: Directives, nonce: string)
    requires Means(policy, NonceMeaning(d, nonce))
    ensures forall i :: 0 <= i < |policy| ==>
              var k, kept := policy[i].name, policy[i].tokens;
              k in d &&
              kept == if k == "script-src" then Tokens(d[k]) + ["'nonce-" + nonce + "'"]
                      else if k == "style-src" then StyleKept(d[k]) + ["'nonce-" + nonce + "'"]
                      else Tokens(d[k])
  {
    hide Tokens, StyleKept, NonceTokens, HasName;
    forall i | 0 <= i < |policy|
      ensures policy[i].name in d && policy[i].tokens == NonceTokens(d, nonce, policy[i].name)
    {
    }
    forall k | k in d
      ensures NonceTokens(d, nonce, k) ==
              if k == "script-src" then Tokens(d[k]) + ["'nonce-" + nonce + "'"]
              else if k == "style-src" then StyleKept(d[k]) + ["'nonce-" + nonce + "'"]
              else Tokens(d[k])
    {
      NonceRow(d, nonce, k);
    }
  }

  lemma NonceGood(d: Directives, nonce: string)
    requires Good(d) && GoodNonce(nonce) && (STYLE in d ==> '\U{0B}' !in d[STYLE])
    ensures Good(WithNonce(d, nonce)) && Meaning(WithNonce(d, nonce)) == NonceMeaning(d, nonce)
  {
    hide Tokens, GoodNonce, GoodValue, GoodName;
    var d' := WithNonce(d, nonce);
    forall k | k in d ensures k in d' && GoodName(k) && GoodValue(d'[k]) && Tokens(d'[k]) == NonceTokens(d, nonce, k) {
      NonceValue(d, nonce, k);
    }
    hide NonceTokens;
    assert d'.Keys == d.Keys;
  }

  /**
   buildCSPWithNonce. The policy is read back as the policy without a nonce,
   except that script-src and style-src end with the nonce and style-src loses
   the first occurrence of the keyword.
   */
  method BuildCSPWithNonce(d: Directives, nonce: string) returns (csp: string)
    ensures Prints(csp, WithNonce(d, nonce))
    ensures Good(d) && GoodNonce(nonce) && (STYLE in d ==> '\U{0B}' !in d[STYLE]) ==>
              Means(Parse(csp), NonceMeaning(d, nonce)) &&
              forall i :: 0 <= i < |Parse(csp)| ==>
                var k, kept := Parse(csp)[i].name, Parse(csp)[i].tokens;
                k in d &&
                kept == if k == "script-src" then Tokens(d[k]) + ["'nonce-" + nonce + "'"]
                        else if k == "style-src" then StyleKept(d[k]) + ["'nonce-" + nonce + "'"]
                        else Tokens(d[k])
  {
    var copy := d;
    if SCRIPT in copy {
      copy := copy[SCRIPT := copy[SCRIPT] + " " + NonceSource(nonce)];
    }
    if STYLE in copy {
      var style := RemoveFirst(copy[STYLE], UNSAFE);
      copy := copy[STYLE := Sanitize.TrimSpace(style) + " " + NonceSource(nonce)];
    }
    assert copy == WithNonce(d, nonce);
    hide Good, GoodNonce, Means, Parse, Prints, WithNonce, Tokens, StyleKept;
    csp := BuildCSP(copy);
    if Good(d) && GoodNonce(nonce) && (STYLE in d ==> '\U{0B}' !in d[STYLE]) {
      NonceGood(d, nonce);
      NonceRows(Parse(csp), d, nonce);
    }
  }
}
