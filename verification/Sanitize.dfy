/**
 SanitizeInput of validation.go, on strings of Unicode code points: five rewrites
 one after the other, the removal of NUL last.
 */
module Sanitize {

  const CR := '\r'
  const LF := '\n'
  const NUL := '\0'

  /** unicode.IsSpace, which TrimSpace uses. */
  predicate IsSpace(c: char) {
    c == ' ' || '\U{09}' <= c <= '\U{0D}' || c == '\U{85}' || c == '\U{A0}' || c == '\U{1680}' ||
    '\U{2000}' <= c <= '\U{200A}' || c == '\U{2028}' || c == '\U{2029}' || c == '\U{202F}' || c == '\U{205F}' ||
    c == '\U{3000}'
  }

  /** The class [^\S\n]: ASCII white space other than newline, without vertical tab. */
  predicate IsHorizontal(c: char) {
    c == ' ' || c == '\t' || c == '\U{0C}' || c == CR
  }

  // The rewrites

  function CrLfToLf(s: string): string {
    if |s| == 0 then ""
    else if |s| >= 2 && s[0] == CR && s[1] == LF then [LF] + CrLfToLf(s[2..])
    else [s[0]] + CrLfToLf(s[1..])
  }

  function CrToLf(s: string): string {
    if |s| == 0 then "" else [if s[0] == CR then LF else s[0]] + CrToLf(s[1..])
  }

  function TrimLeft(s: string): string {
    if |s| > 0 && IsSpace(s[0]) then TrimLeft(s[1..]) else s
  }

  function TrimRight(s: string): string {
    if |s| > 0 && IsSpace(s[|s| - 1]) then TrimRight(s[..|s| - 1]) else s
  }

  function TrimSpace(s: string): string {
    TrimRight(TrimLeft(s))
  }

  /** ReplaceAllString of runs of horizontal white space by one space; `inRun` inside a run. */
  function SqueezeSpaces(s: string, inRun: bool): string {
    if |s| == 0 then ""
    else if IsHorizontal(s[0]) then (if inRun then "" else " ") + SqueezeSpaces(s[1..], true)
    else [s[0]] + SqueezeSpaces(s[1..], false)
  }

  /** ReplaceAllString of runs of three or more newlines by two; `seen` newlines precede. */
  function SqueezeNewlines(s: string, seen: nat): string {
    if |s| == 0 then ""
    else if s[0] == LF then (if seen < 2 then [LF] else "") + SqueezeNewlines(s[1..], seen + 1)
    else [s[0]] + SqueezeNewlines(s[1..], 0)
  }

  function DropNul(s: string): string {
    if |s| == 0 then "" else (if s[0] == NUL then "" else [s[0]]) + DropNul(s[1..])
  }

  function BeforeDrop(s: string): string {
    SqueezeNewlines(SqueezeSpaces(TrimSpace(CrToLf(CrLfToLf(s))), false), 0)
  }

  function SanitizeInput(s: string): string {
    DropNul(BeforeDrop(s))
  }

  // Meaning: the visible characters and what separates them

  datatype Gap = Edge | Touching | Word | Line | Paragraph

  /** White space widens a gap; at the edge of the text it does not matter. */
  function Widen(g: Gap, c: char): Gap {
    match g
    case Edge => Edge
    case Paragraph => Paragraph
    case Line => if c == LF then Paragraph else Line
    case _ => if c == LF then Line else Word
  }

  /** The visible characters in order, each with the gap before it; NUL is invisible and separates nothing. */
  function Skeleton(s: string, g: Gap): seq<(Gap, char)> {
    if |s| == 0 then []
    else if s[0] == NUL then Skeleton(s[1..], g)
    else if IsSpace(s[0]) then Skeleton(s[1..], Widen(g, s[0]))
    else [(g, s[0])] + Skeleton(s[1..], Touching)
  }

  /** The text with each CRLF, CR or LF read as one line end. */
  function Lines(s: string): string {
    CrToLf(CrLfToLf(s))
  }

  lemma {:induction false} TrimLeftSkeleton(s: string)
    ensures Skeleton(TrimLeft(s), Edge) == Skeleton(s, Edge)
  {
    if |s| > 0 && IsSpace(s[0]) {
      TrimLeftSkeleton(s[1..]);
    }
  }

  lemma {:induction false} SkeletonSpaceAtEnd(s: string, c: char, g: Gap)
    requires IsSpace(c)
    ensures Skeleton(s + [c], g) == Skeleton(s, g)
  {
    if |s| == 0 {
      assert (s + [c])[1..] == "";
    } else {
      assert (s + [c])[1..] == s[1..] + [c];
      SkeletonSpaceAtEnd(s[1..], c, if s[0] == NUL then g else if IsSpace(s[0]) then Widen(g, s[0]) else Touching);
    }
  }

  lemma {:induction false} TrimRightSkeleton(s: string)
    ensures Skeleton(TrimRight(s), Edge) == Skeleton(s, Edge)
  {
    if |s| > 0 && IsSpace(s[|s| - 1]) {
      TrimRightSkeleton(s[..|s| - 1]);
      SkeletonSpaceAtEnd(s[..|s| - 1], s[|s| - 1], Edge);
      assert s == s[..|s| - 1] + [s[|s| - 1]];
    }
  }

  lemma {:induction false} SpacesSkeleton(s: string, inRun: bool, g: Gap)
    requires inRun ==> g != Touching
    ensures Skeleton(SqueezeSpaces(s, inRun), g) == Skeleton(s, g)
  {
    if |s| > 0 {
      var rest := s[1..];
      if IsHorizontal(s[0]) {
        SpacesSkeleton(rest, true, Widen(g, s[0]));
        if !inRun {
          assert (" " + SqueezeSpaces(rest, true))[1..] == SqueezeSpaces(rest, true);
        } else {
          assert "" + SqueezeSpaces(rest, true) == SqueezeSpaces(rest, true);
        }
      } else {
        assert ([s[0]] + SqueezeSpaces(rest, false))[1..] == SqueezeSpaces(rest, false);
        SpacesSkeleton(rest, false, if s[0] == NUL then g else if IsSpace(s[0]) then Widen(g, s[0]) else Touching);
      }
    }
  }

  lemma {:induction false} NewlinesSkeleton(s: string, seen: nat, g: Gap)
    requires seen >= 2 ==> g == Edge || g == Paragraph
    requires seen == 1 ==> g == Edge || g == Line || g == Paragraph
    ensures Skeleton(SqueezeNewlines(s, seen), g) == Skeleton(s, g)
  {
    if |s| > 0 {
      var rest := s[1..];
      if s[0] == LF {
        NewlinesSkeleton(rest, seen + 1, Widen(g, LF));
        if seen < 2 {
          assert ([LF] + SqueezeNewlines(rest, seen + 1))[1..] == SqueezeNewlines(rest, seen + 1);
        } else {
          assert "" + SqueezeNewlines(rest, seen + 1) == SqueezeNewlines(rest, seen + 1);
        }
      } else {
        assert ([s[0]] + SqueezeNewlines(rest, 0))[1..] == SqueezeNewlines(rest, 0);
        NewlinesSkeleton(rest, 0, if s[0] == NUL then g else if IsSpace(s[0]) then Widen(g, s[0]) else Touching);
      }
    }
  }

  lemma {:induction false} DropNulSkeleton(s: string, g: Gap)
    ensures Skeleton(DropNul(s), g) == Skeleton(s, g)
  {
    if |s| > 0 {
      var rest := s[1..];
      if s[0] == NUL {
        assert "" + DropNul(rest) == DropNul(rest);
        DropNulSkeleton(rest, g);
      } else {
        assert ([s[0]] + DropNul(rest))[1..] == DropNul(rest);
        DropNulSkeleton(rest, if IsSpace(s[0]) then Widen(g, s[0]) else Touching);
      }
    }
  }

  /** The skeleton read off a text as typed, where CRLF, a lone CR and a lone LF end one line each. */
  function RawSkeleton(s: string, g: Gap): seq<(Gap, char)> {
    if |s| == 0 then []
    else if s[0] == NUL then RawSkeleton(s[1..], g)
    else if |s| >= 2 && s[0] == CR && s[1] == LF then RawSkeleton(s[2..], Widen(g, LF))
    else if s[0] == CR then RawSkeleton(s[1..], Widen(g, LF))
    else if IsSpace(s[0]) then RawSkeleton(s[1..], Widen(g, s[0]))
    else [(g, s[0])] + RawSkeleton(s[1..], Touching)
  }

  lemma {:induction false} LinesSkeleton(s: string, g: Gap)
    ensures Skeleton(Lines(s), g) == RawSkeleton(s, g)
  {
    if |s| > 0 {
      if |s| >= 2 && s[0] == CR && s[1] == LF {
        LinesSkeleton(s[2..], Widen(g, LF));
      } else {
        LinesSkeleton(s[1..], if s[0] == NUL then g else if s[0] == CR then Widen(g, LF)
                              else if IsSpace(s[0]) then Widen(g, s[0]) else Touching);
        assert CrLfToLf(s) == [s[0]] + CrLfToLf(s[1..]);
      }
    }
  }

  /**
   On any input: the visible characters stay, in order, and between each two of
   them there is nothing, a word gap, a line end or a blank line exactly where
   there was one in the input.
   */
  lemma SanitizeKeepsSkeleton(s: string)
    ensures RawSkeleton(SanitizeInput(s), Edge) == RawSkeleton(s, Edge)
  {
    LinesSkeleton(s, Edge);
    SanitizeKeepsLines(s);
    SanitizeShape(s);
    NormalLines(SanitizeInput(s));
    LinesSkeleton(SanitizeInput(s), Edge);
  }

  lemma SanitizeKeepsLines(s: string)
    ensures Skeleton(SanitizeInput(s), Edge) == Skeleton(Lines(s), Edge)
  {
    var l := Lines(s);
    TrimLeftSkeleton(l);
    TrimRightSkeleton(TrimLeft(l));
    var t := TrimSpace(l);
    SpacesSkeleton(t, false, Edge);
    NewlinesSkeleton(SqueezeSpaces(t, false), 0, Edge);
    DropNulSkeleton(BeforeDrop(s), Edge);
  }

  // Shape

  predicate Free(s: string, c: char) { c !in s }

  predicate NoPair(s: string, c: char) {
    forall i :: 0 <= i < |s| - 1 ==> s[i] != c || s[i + 1] != c
  }

  predicate NoTriple(s: string, c: char) {
    forall i :: 0 <= i < |s| - 2 ==> s[i] != c || s[i + 1] != c || s[i + 2] != c
  }

  predicate Trimmed(s: string) {
    |s| > 0 ==> !IsSpace(s[0]) && !IsSpace(s[|s| - 1])
  }

  /** No carriage return, NUL, tab or form feed; trimmed; no two spaces and no three newlines in a row. */
  predicate Normal(s: string) {
    Free(s, CR) && Free(s, NUL) && Free(s, '\t') && Free(s, '\U{0C}') && Trimmed(s) && NoPair(s, ' ') && NoTriple(s, LF)
  }

  lemma {:induction false} LinesShape(s: string)
    ensures |Lines(s)| <= |s| && Free(Lines(s), CR)
    ensures Free(s, NUL) ==> Free(Lines(s), NUL)
  {
    CrLfShape(s);
    CrShape(CrLfToLf(s));
  }

  lemma {:induction false} CrLfShape(s: string)
    ensures |CrLfToLf(s)| <= |s| && forall c :: c in CrLfToLf(s) ==> c in s
  {
    if |s| >= 2 && s[0] == CR && s[1] == LF {
      CrLfShape(s[2..]);
    } else if |s| > 0 {
      CrLfShape(s[1..]);
    }
  }

  lemma {:induction false} CrShape(s: string)
    ensures |CrToLf(s)| == |s| && Free(CrToLf(s), CR) && forall c :: c in CrToLf(s) ==> c in s || c == LF
  {
    if |s| > 0 {
      CrShape(s[1..]);
    }
  }

  lemma {:induction false} TrimLeftShape(s: string)
    ensures |TrimLeft(s)| <= |s| && forall c :: c in TrimLeft(s) ==> c in s
    ensures |TrimLeft(s)| > 0 ==> !IsSpace(TrimLeft(s)[0])
  {
    if |s| > 0 && IsSpace(s[0]) {
      TrimLeftShape(s[1..]);
    }
  }

  lemma {:induction false} TrimRightShape(s: string)
    ensures |TrimRight(s)| <= |s| && TrimRight(s) == s[..|TrimRight(s)|]
    ensures |TrimRight(s)| > 0 ==> !IsSpace(TrimRight(s)[|TrimRight(s)| - 1])
  {
    if |s| > 0 && IsSpace(s[|s| - 1]) {
      TrimRightShape(s[..|s| - 1]);
    }
  }

  lemma TrimShape(s: string)
    ensures |TrimSpace(s)| <= |s| && Trimmed(TrimSpace(s)) && forall c :: c in TrimSpace(s) ==> c in s
  {
    TrimLeftShape(s);
    TrimRightShape(TrimLeft(s));
  }

  lemma {:induction false} SpacesShape(s: string, inRun: bool)
    ensures var r := SqueezeSpaces(s, inRun);
            |r| <= |s| && NoPair(r, ' ') && Free(r, '\t') && Free(r, '\U{0C}') && Free(r, CR)
    ensures var r := SqueezeSpaces(s, inRun); forall c :: c in r ==> c in s || c == ' '
    ensures var r := SqueezeSpaces(s, inRun); inRun && |r| > 0 ==> r[0] != ' '
    ensures var r := SqueezeSpaces(s, inRun);
            |s| > 0 && !IsSpace(s[|s| - 1]) ==> |r| > 0 && r[|r| - 1] == s[|s| - 1]
    ensures var r := SqueezeSpaces(s, inRun); |s| > 0 && !IsSpace(s[0]) ==> |r| > 0 && r[0] == s[0]
  {
    if |s| > 0 {
      SpacesShape(s[1..], IsHorizontal(s[0]));
    }
  }

  lemma {:induction false} NewlinesTriple(s: string, seen: nat)
    ensures var r := SqueezeNewlines(s, seen);
            NoTriple(r, LF) && (seen >= 1 && |r| >= 2 ==> r[0] != LF || r[1] != LF) &&
            (seen >= 2 && |r| >= 1 ==> r[0] != LF)
  {
    if |s| > 0 {
      NewlinesTriple(s[1..], if s[0] == LF then seen + 1 else 0);
    }
  }

  lemma {:induction false} NewlinesPair(s: string, seen: nat)
    requires NoPair(s, ' ')
    ensures var r := SqueezeNewlines(s, seen);
            NoPair(r, ' ') && (|s| > 0 && |r| > 0 && s[0] != LF ==> r[0] == s[0])
  {
    if |s| > 0 {
      var rest := s[1..];
      forall i | 0 <= i < |rest| - 1 ensures rest[i] != ' ' || rest[i + 1] != ' ' {
        assert rest[i] == s[i + 1];
      }
      NewlinesPair(rest, if s[0] == LF then seen + 1 else 0);
      var cut := SqueezeNewlines(rest, if s[0] == LF then seen + 1 else 0);
      if s[0] == ' ' && |cut| > 0 && cut[0] == ' ' {
        NewlinesEnds(rest, 0);
      }
    }
  }

  lemma {:induction false} NewlinesEnds(s: string, seen: nat)
    ensures var r := SqueezeNewlines(s, seen); |r| <= |s| && forall c :: c in r ==> c in s
    ensures var r := SqueezeNewlines(s, seen);
            |s| > 0 && !IsSpace(s[|s| - 1]) ==> |r| > 0 && r[|r| - 1] == s[|s| - 1]
    ensures var r := SqueezeNewlines(s, seen); |s| > 0 && (s[0] != LF || seen < 2) ==> |r| > 0 && r[0] == s[0]
  {
    assert IsSpace(LF);
    hide IsSpace;
    if |s| > 0 {
      var rest := s[1..];
      NewlinesEnds(rest, if s[0] == LF then seen + 1 else 0);
      assert |rest| > 0 ==> rest[|rest| - 1] == s[|s| - 1];
    }
  }

  lemma {:induction false} DropNulShape(s: string)
    ensures |DropNul(s)| <= |s| && Free(DropNul(s), NUL) && forall c :: c in DropNul(s) ==> c in s
    ensures Free(s, NUL) ==> DropNul(s) == s
  {
    if |s| > 0 {
      DropNulShape(s[1..]);
    }
  }

  /** What is true of the text before NULs are removed, on any input. */
  lemma BeforeDropShape(s: string)
    ensures var r := BeforeDrop(s);
            |r| <= |s| && Free(r, CR) && Free(r, '\t') && Free(r, '\U{0C}') &&
            Trimmed(r) && NoPair(r, ' ') && NoTriple(r, LF)
    ensures Free(s, NUL) ==> Free(BeforeDrop(s), NUL)
  {
    var l := Lines(s);
    LinesShape(s);
    TrimShape(l);
    SpacesShape(TrimSpace(l), false);
    var x := SqueezeSpaces(TrimSpace(l), false);
    NewlinesTriple(x, 0);
    NewlinesPair(x, 0);
    NewlinesEnds(x, 0);
    assert |TrimSpace(l)| == 0 ==> BeforeDrop(s) == "";
  }

  /** On any input the result has no CR, tab, form feed or NUL and is not longer than the input. */
  lemma SanitizeShape(s: string)
    ensures var r := SanitizeInput(s);
            |r| <= |s| && Free(r, CR) && Free(r, NUL) && Free(r, '\t') && Free(r, '\U{0C}')
  {
    BeforeDropShape(s);
    DropNulShape(BeforeDrop(s));
  }

  /** On input without NUL the result is in normal form. */
  lemma SanitizeNormal(s: string)
    requires Free(s, NUL)
    ensures Normal(SanitizeInput(s))
  {
    BeforeDropShape(s);
    DropNulShape(BeforeDrop(s));
  }

  lemma {:induction false} NormalLines(s: string)
    requires Free(s, CR)
    ensures CrLfToLf(s) == s && CrToLf(s) == s
  {
    if |s| > 0 {
      NormalLines(s[1..]);
    }
  }

  lemma {:induction false} NormalSpaces(s: string, inRun: bool)
    requires NoPair(s, ' ') && Free(s, CR) && Free(s, '\t') && Free(s, '\U{0C}') && (inRun && |s| > 0 ==> s[0] != ' ')
    ensures SqueezeSpaces(s, inRun) == s
  {
    if |s| > 0 {
      assert IsHorizontal(s[0]) <==> s[0] == ' ' by { assert s[0] in s; }
      forall i | 0 <= i < |s[1..]| - 1 ensures s[1..][i] != ' ' || s[1..][i + 1] != ' ' {
        assert s[1..][i] == s[i + 1];
      }
      NormalSpaces(s[1..], s[0] == ' ');
    }
  }

  lemma {:induction false} NormalNewlines(s: string, seen: nat)
    requires NoTriple(s, LF)
    requires (seen >= 1 && |s| >= 2 ==> s[0] != LF || s[1] != LF) && (seen >= 2 && |s| >= 1 ==> s[0] != LF)
    ensures SqueezeNewlines(s, seen) == s
  {
    if |s| > 0 {
      forall i | 0 <= i < |s[1..]| - 2 ensures s[1..][i] != LF || s[1..][i + 1] != LF || s[1..][i + 2] != LF {
        assert s[1..][i] == s[i + 1];
      }
      NormalNewlines(s[1..], if s[0] == LF then seen + 1 else 0);
    }
  }

  lemma NormalBeforeDrop(s: string)
    requires Free(s, CR) && Free(s, '\t') && Free(s, '\U{0C}') && Trimmed(s) && NoPair(s, ' ') && NoTriple(s, LF)
    ensures BeforeDrop(s) == s
  {
    NormalLines(s);
    NormalSpaces(s, false);
    NormalNewlines(s, 0);
  }

  /** The texts that SanitizeInput leaves alone are exactly those in normal form. */
  lemma FixpointIff(s: string)
    ensures SanitizeInput(s) == s <==> Normal(s)
  {
    if Normal(s) {
      NormalBeforeDrop(s);
      DropNulShape(s);
    }
    if SanitizeInput(s) == s {
      SanitizeShape(s);
      SanitizeNormal(s);
    }
  }

  /** Sanitizing is idempotent on input without NUL, and on any input from the second time on. */
  lemma SanitizeIdempotent(s: string)
    ensures Free(s, NUL) ==> SanitizeInput(SanitizeInput(s)) == SanitizeInput(s)
    ensures SanitizeInput(SanitizeInput(SanitizeInput(s))) == SanitizeInput(SanitizeInput(s))
  {
    var once := SanitizeInput(s);
    SanitizeShape(s);
    SanitizeNormal(once);
    FixpointIff(SanitizeInput(once));
    if Free(s, NUL) {
      SanitizeNormal(s);
      FixpointIff(once);
    }
  }

  lemma {:induction false} DropNulAppend(s: string, t: string)
    ensures DropNul(s + t) == DropNul(s) + DropNul(t)
  {
    if |s| == 0 {
      assert s + t == t;
    } else {
      assert (s + t)[1..] == s[1..] + t;
      DropNulAppend(s[1..], t);
    }
  }

  lemma DropNulAlone()
    ensures DropNul([NUL]) == ""
  {
    assert [NUL][1..] == "";
  }

  /** With NUL the first pass may leave what a second one changes: a NUL between two spaces keeps both. */
  lemma NulHidesRun(s: string, t: string)
    requires s == "a " && t == " b"
    ensures SanitizeInput(s + [NUL] + t) == s + t && SanitizeInput(s + t) != s + t
  {
    hide CrLfToLf, CrToLf, TrimSpace, SqueezeSpaces, SqueezeNewlines, DropNul;
    NormalBeforeDrop(s + [NUL] + t);
    DropNulAppend(s + [NUL], t);
    DropNulAppend(s, [NUL]);
    DropNulShape(s);
    DropNulShape(t);
    DropNulShape([NUL]);
    DropNulAlone();
    FixpointIff(s + t);
    assert (s + t)[1] == ' ' && (s + t)[2] == ' ';
  }
  // Which inputs with NUL are idempotent

  function SkipNul(s: string): string {
    if |s| > 0 && s[0] == NUL then SkipNul(s[1..]) else s
  }

  /** After any NULs comes horizontal white space. */
  predicate SpaceAfterNuls(s: string) {
    |SkipNul(s)| > 0 && IsHorizontal(SkipNul(s)[0])
  }

  predicate NulsThenSpace(s: string) {
    |s| > 0 && s[0] == NUL && SpaceAfterNuls(s)
  }

  /** Somewhere a run of NULs lies between two horizontal spaces. */
  predicate HidesSpace(t: string) {
    exists i :: 0 <= i < |t| && IsHorizontal(t[i]) && NulsThenSpace(t[i + 1..])
  }

  /**
   The newlines kept of the run of newlines and NULs that `s` begins with, if NULs
   cut it into pieces and each piece is cut to two; `piece` newlines precede.
   */
  function KeptLines(s: string, piece: nat): nat {
    if |s| == 0 then 0
    else if s[0] == LF then (if piece < 2 then 1 else 0) + KeptLines(s[1..], piece + 1)
    else if s[0] == NUL then KeptLines(s[1..], 0)
    else 0
  }

  /** Some run of newlines and NULs keeps more than two newlines. */
  predicate HidesLine(t: string) {
    exists i :: 0 <= i <= |t| && KeptLines(t[i..], 0) >= 3
  }

  lemma HidesSpaceStep(t: string)
    requires |t| > 0
    ensures HidesSpace(t) <==> (IsHorizontal(t[0]) && NulsThenSpace(t[1..])) || HidesSpace(t[1..])
  {
    hide NulsThenSpace;
    if HidesSpace(t[1..]) {
      var i :| 0 <= i < |t[1..]| && IsHorizontal(t[1..][i]) && NulsThenSpace(t[1..][i + 1..]);
      assert t[1..][i + 1..] == t[i + 1 + 1..];
      assert IsHorizontal(t[i + 1]);
    }
    if HidesSpace(t) {
      var i :| 0 <= i < |t| && IsHorizontal(t[i]) && NulsThenSpace(t[i + 1..]);
      if i > 0 {
        assert t[1..][i - 1 + 1..] == t[i + 1..];
        assert IsHorizontal(t[1..][i - 1]);
      }
    }
  }

  lemma HidesLineStep(t: string)
    requires |t| > 0
    ensures HidesLine(t) <==> KeptLines(t, 0) >= 3 || HidesLine(t[1..])
  {
    hide KeptLines;
    assert t[0..] == t;
    if HidesLine(t[1..]) {
      var i :| 0 <= i <= |t[1..]| && KeptLines(t[1..][i..], 0) >= 3;
      assert t[1..][i..] == t[i + 1..];
    }
    if HidesLine(t) {
      var i :| 0 <= i <= |t| && KeptLines(t[i..], 0) >= 3;
      if i > 0 {
        assert t[1..][i - 1..] == t[i..];
      }
    }
  }

  lemma HidesLineAtStart(t: string)
    requires KeptLines(t, 0) >= 3
    ensures HidesLine(t)
  {
    assert t[0..] == t;
  }

  /** Two spaces in a row; `after` a space. */
  predicate PairFrom(r: string, after: bool) {
    |r| > 0 && ((after && r[0] == ' ') || PairFrom(r[1..], r[0] == ' '))
  }

  lemma {:induction false} PairFromIff(r: string, after: bool)
    ensures PairFrom(r, after) <==> (after && |r| > 0 && r[0] == ' ') || !NoPair(r, ' ')
  {
    if |r| > 0 {
      PairFromIff(r[1..], r[0] == ' ');
      assert NoPair(r, ' ') <==> NoPair(r[1..], ' ') && !(|r| > 1 && r[0] == ' ' && r[1] == ' ') by {
        PairStep(r);
      }
    }
  }

  lemma PairStep(r: string)
    requires |r| > 0
    ensures NoPair(r, ' ') <==> NoPair(r[1..], ' ') && !(|r| > 1 && r[0] == ' ' && r[1] == ' ')
  {
    if NoPair(r[1..], ' ') && !(|r| > 1 && r[0] == ' ' && r[1] == ' ') {
      forall i | 0 <= i < |r| - 1 ensures r[i] != ' ' || r[i + 1] != ' ' {
        if i > 0 {
          assert r[1..][i - 1] == r[i] && r[1..][i - 1 + 1] == r[i + 1];
        }
      }
    }
    if NoPair(r, ' ') {
      forall i | 0 <= i < |r[1..]| - 1 ensures r[1..][i] != ' ' || r[1..][i + 1] != ' ' {
        assert r[i + 1] != ' ' || r[i + 1 + 1] != ' ';
      }
    }
  }

  /** Three newlines in a row; `n` newlines precede. */
  predicate TripleFrom(r: string, n: nat) {
    |r| > 0 && if r[0] == LF then n >= 2 || TripleFrom(r[1..], n + 1) else TripleFrom(r[1..], 0)
  }

  lemma {:induction false} TripleFromIff(r: string, n: nat)
    ensures TripleFrom(r, n) <==>
              (n >= 2 && |r| >= 1 && r[0] == LF) || (n >= 1 && |r| >= 2 && r[0] == LF && r[1] == LF) || !NoTriple(r, LF)
  {
    if |r| > 0 {
      TripleFromIff(r[1..], if r[0] == LF then n + 1 else 0);
      TripleStep(r);
    }
  }

  lemma TripleStep(r: string)
    requires |r| > 0
    ensures NoTriple(r, LF) <==>
              NoTriple(r[1..], LF) && !(|r| > 2 && r[0] == LF && r[1] == LF && r[2] == LF)
  {
    if NoTriple(r[1..], LF) && !(|r| > 2 && r[0] == LF && r[1] == LF && r[2] == LF) {
      forall i | 0 <= i < |r| - 2 ensures r[i] != LF || r[i + 1] != LF || r[i + 2] != LF {
        if i > 0 {
          assert r[1..][i - 1] == r[i] && r[1..][i - 1 + 1] == r[i + 1] && r[1..][i - 1 + 2] == r[i + 2];
        }
      }
    }
    if NoTriple(r, LF) {
      forall i | 0 <= i < |r[1..]| - 2 ensures r[1..][i] != LF || r[1..][i + 1] != LF || r[1..][i + 2] != LF {
        assert r[i + 1] != LF || r[i + 1 + 1] != LF || r[i + 1 + 2] != LF;
      }
    }
  }

  lemma DropNulStep(c: char, s: string)
    ensures DropNul([c] + s) == (if c == NUL then "" else [c]) + DropNul(s)
  {
    assert ([c] + s)[1..] == s;
  }

  lemma PairStart(c: char, r: string, after: bool)
    ensures PairFrom([c] + r, after) <==> (after && c == ' ') || PairFrom(r, c == ' ')
  {
    assert ([c] + r)[1..] == r;
  }

  lemma TripleStart(c: char, r: string, n: nat)
    ensures TripleFrom([c] + r, n) <==> if c == LF then n >= 2 || TripleFrom(r, n + 1) else TripleFrom(r, 0)
  {
    assert ([c] + r)[1..] == r;
  }

  /** Cutting newlines neither makes nor removes a pair of spaces. */
  lemma {:induction false} LinesKeepPairs(x: string, piece: nat, after: bool)
    requires piece > 0 ==> !after
    ensures PairFrom(DropNul(SqueezeNewlines(x, piece)), after) == PairFrom(DropNul(x), after)
  {
    if |x| > 0 {
      var c, rest := x[0], x[1..];
      assert x == [c] + rest;
      DropNulStep(c, rest);
      if c == LF {
        LinesKeepPairs(rest, piece + 1, false);
        var cut := SqueezeNewlines(rest, piece + 1);
        DropNulStep(LF, cut);
        PairStart(LF, DropNul(cut), after);
        PairStart(LF, DropNul(rest), after);
        assert "" + cut == cut;
      } else {
        LinesKeepPairs(rest, 0, if c == NUL then after else c == ' ');
        var cut := SqueezeNewlines(rest, 0);
        DropNulStep(c, cut);
        PairStart(c, DropNul(cut), after);
        PairStart(c, DropNul(rest), after);
        assert "" + DropNul(cut) == DropNul(cut) && "" + DropNul(rest) == DropNul(rest);
      }
    }
  }

  /** After squeezing, the NULs that stood between two spaces are all that keeps them apart. */
  lemma {:induction false} PairsAfterSqueeze(t: string, inRun: bool, after: bool)
    requires inRun ==> after
    ensures PairFrom(DropNul(SqueezeSpaces(t, inRun)), after) <==>
              HidesSpace(t) || (after && if inRun then NulsThenSpace(t) else SpaceAfterNuls(t))
  {
    if |t| > 0 {
      var c, rest := t[0], t[1..];
      HidesSpaceStep(t);
      hide HidesSpace;
      if IsHorizontal(c) {
        PairsAfterSqueeze(rest, true, true);
        var squeezed := SqueezeSpaces(rest, true);
        DropNulStep(' ', squeezed);
        PairStart(' ', DropNul(squeezed), after);
        assert "" + squeezed == squeezed;
      } else {
        PairsAfterSqueeze(rest, false, c == NUL && after);
        var squeezed := SqueezeSpaces(rest, false);
        DropNulStep(c, squeezed);
        PairStart(c, DropNul(squeezed), after);
        assert "" + DropNul(squeezed) == DropNul(squeezed);
      }
    }
  }

  lemma {:induction false} KeptLinesLess(s: string, a: nat, b: nat)
    requires a <= b
    ensures KeptLines(s, b) <= KeptLines(s, a)
    ensures KeptLines(s, a) <= KeptLines(s, b) + (if b > 2 then 2 else b) - (if a > 2 then 2 else a)
  {
    if |s| > 0 && s[0] == LF {
      KeptLinesLess(s[1..], a + 1, b + 1);
    }
  }

  lemma KeptLinesStep(c: char, s: string, piece: nat)
    ensures KeptLines([c] + s, piece) ==
            if c == LF then (if piece < 2 then 1 else 0) + KeptLines(s, piece + 1)
            else if c == NUL then KeptLines(s, 0) else 0
  {
    assert ([c] + s)[1..] == s;
  }

  lemma CutStep(c: char, s: string, piece: nat)
    ensures SqueezeNewlines([c] + s, piece) ==
            if c != LF then [c] + SqueezeNewlines(s, 0)
            else if piece < 2 then [LF] + SqueezeNewlines(s, piece + 1) else SqueezeNewlines(s, piece + 1)
  {
    assert ([c] + s)[1..] == s;
    assert "" + SqueezeNewlines(s, piece + 1) == SqueezeNewlines(s, piece + 1);
  }

  /** After cutting, the NULs inside a run are all that keeps more than two newlines apart. */
  lemma {:induction false} TriplesAfterCut(x: string, piece: nat, n: nat)
    requires n >= if piece > 2 then 2 else piece
    ensures TripleFrom(DropNul(SqueezeNewlines(x, piece)), n) <==>
              HidesLine(x) || (KeptLines(x, piece) >= 1 && n + KeptLines(x, piece) >= 3)
  {
    if |x| == 0 {
      assert x[0..] == x;
    } else {
      var c, rest := x[0], x[1..];
      assert x == [c] + rest;
      HidesLineStep(x);
      CutStep(c, rest, piece);
      KeptLinesStep(c, rest, piece);
      KeptLinesStep(c, rest, 0);
      hide HidesLine, TripleFrom, DropNul, SqueezeNewlines, KeptLines;
      if KeptLines(rest, 0) >= 3 {
        HidesLineAtStart(rest);
      }
      if c == LF {
        var cut := SqueezeNewlines(rest, piece + 1);
        TriplesAfterCut(rest, piece + 1, if piece < 2 then n + 1 else n);
        DropNulStep(LF, cut);
        TripleStart(LF, DropNul(cut), n);
        KeptLinesLess(rest, 1, piece + 1);
      } else {
        var cut := SqueezeNewlines(rest, 0);
        TriplesAfterCut(rest, 0, if c == NUL then n else 0);
        DropNulStep(c, cut);
        TripleStart(c, DropNul(cut), n);
        assert "" + DropNul(cut) == DropNul(cut);
      }
    }
  }

  lemma {:induction false} SpacesKeepRun(t: string, piece: nat)
    ensures KeptLines(SqueezeSpaces(t, false), piece) == KeptLines(t, piece)
  {
    if |t| > 0 {
      var c, rest := t[0], t[1..];
      assert t == [c] + rest;
      KeptLinesStep(c, rest, piece);
      if IsHorizontal(c) {
        KeptLinesStep(' ', SqueezeSpaces(rest, true), piece);
      } else {
        KeptLinesStep(c, SqueezeSpaces(rest, false), piece);
        SpacesKeepRun(rest, if c == LF then piece + 1 else 0);
      }
    }
  }

  lemma {:induction false} SpacesKeepLines(t: string, inRun: bool)
    ensures HidesLine(SqueezeSpaces(t, inRun)) <==> HidesLine(t)
  {
    if |t| > 0 {
      var c, rest := t[0], t[1..];
      HidesLineStep(t);
      SpacesKeepRun(t, 0);
      SpacesKeepLines(rest, IsHorizontal(c));
      var squeezed := SqueezeSpaces(t, inRun);
      if IsHorizontal(c) && inRun {
        assert squeezed == SqueezeSpaces(rest, true);
      } else {
        HidesLineStep(squeezed);
        assert squeezed[1..] == SqueezeSpaces(rest, IsHorizontal(c));
        assert squeezed == SqueezeSpaces(t, false);
      }
      hide HidesLine;
    }
  }

  /** The first character that is not NUL is white space. */
  predicate FirstIsSpace(s: string) {
    |s| > 0 && if s[0] == NUL then FirstIsSpace(s[1..]) else IsSpace(s[0])
  }

  /** The last character that is not NUL is white space, or `before` if there is none. */
  predicate LastIsSpace(s: string, before: bool) {
    if |s| == 0 then before else LastIsSpace(s[1..], if s[0] == NUL then before else IsSpace(s[0]))
  }

  lemma LastStep(c: char, s: string, before: bool)
    ensures LastIsSpace([c] + s, before) == LastIsSpace(s, if c == NUL then before else IsSpace(c))
  {
    assert ([c] + s)[1..] == s;
  }

  lemma FirstStep(c: char, s: string)
    ensures FirstIsSpace([c] + s) == if c == NUL then FirstIsSpace(s) else IsSpace(c)
  {
    assert ([c] + s)[1..] == s;
  }

  lemma {:induction false} EndsOfSqueezed(t: string, inRun: bool, before: bool)
    requires inRun ==> before
    ensures LastIsSpace(SqueezeSpaces(t, inRun), before) == LastIsSpace(t, before)
    ensures !inRun ==> FirstIsSpace(SqueezeSpaces(t, inRun)) == FirstIsSpace(t)
  {
    if |t| > 0 {
      var c, rest := t[0], t[1..];
      var squeezed := SqueezeSpaces(rest, IsHorizontal(c));
      EndsOfSqueezed(rest, IsHorizontal(c), if c == NUL then before else IsSpace(c));
      assert "" + squeezed == squeezed;
      LastStep(' ', squeezed, before);
      LastStep(c, squeezed, before);
      FirstStep(' ', squeezed);
      FirstStep(c, squeezed);
    }
  }

  lemma {:induction false} EndsOfCut(x: string, piece: nat, before: bool)
    requires piece > 0 ==> before
    ensures LastIsSpace(SqueezeNewlines(x, piece), before) == LastIsSpace(x, before)
    ensures piece == 0 ==> FirstIsSpace(SqueezeNewlines(x, piece)) == FirstIsSpace(x)
  {
    if |x| > 0 {
      var c, rest := x[0], x[1..];
      var cut := SqueezeNewlines(rest, if c == LF then piece + 1 else 0);
      EndsOfCut(rest, if c == LF then piece + 1 else 0, if c == NUL then before else IsSpace(c));
      assert "" + cut == cut;
      LastStep(c, cut, before);
      FirstStep(c, cut);
    }
  }

  lemma {:induction false} EndsWithoutNul(s: string, before: bool)
    ensures LastIsSpace(DropNul(s), before) == LastIsSpace(s, before)
    ensures FirstIsSpace(DropNul(s)) == FirstIsSpace(s)
  {
    if |s| > 0 {
      var c, rest := s[0], s[1..];
      assert s == [c] + rest;
      EndsWithoutNul(rest, if c == NUL then before else IsSpace(c));
      DropNulStep(c, rest);
      assert "" + DropNul(rest) == DropNul(rest);
      LastStep(c, DropNul(rest), before);
      FirstStep(c, DropNul(rest));
    }
  }

  lemma {:induction false} LastIsLast(s: string, before: bool)
    requires Free(s, NUL)
    ensures LastIsSpace(s, before) == if |s| == 0 then before else IsSpace(s[|s| - 1])
  {
    if |s| > 0 {
      LastIsLast(s[1..], IsSpace(s[0]));
    }
  }

  lemma TrimmedIff(s: string)
    ensures Trimmed(DropNul(s)) <==> !FirstIsSpace(s) && !LastIsSpace(s, false)
  {
    EndsWithoutNul(s, false);
    DropNulShape(s);
    LastIsLast(DropNul(s), false);
  }

  lemma EndsKept(t: string)
    ensures Trimmed(DropNul(SqueezeNewlines(SqueezeSpaces(t, false), 0))) <==> Trimmed(DropNul(t))
  {
    var x := SqueezeSpaces(t, false);
    TrimmedIff(t);
    TrimmedIff(SqueezeNewlines(x, 0));
    EndsOfSqueezed(t, false, false);
    EndsOfCut(x, 0, false);
  }

  /** No NUL in the trimmed text hides white space from the rewrites that ran before it was removed. */
  predicate NothingHidden(t: string) {
    Trimmed(DropNul(t)) && !HidesSpace(t) && !HidesLine(t)
  }

  /**
   On any input: a second pass changes nothing exactly if, in the text with its
   line ends read and its edges trimmed, no run of NULs lies at an edge with white
   space behind it, or between two horizontal spaces, or in a run of newlines so
   that more than two of them survive.
   */
  lemma IdempotentIff(s: string)
    ensures SanitizeInput(SanitizeInput(s)) == SanitizeInput(s) <==> NothingHidden(TrimSpace(Lines(s)))
  {
    var t := TrimSpace(Lines(s));
    var x := SqueezeSpaces(t, false);
    var r := SanitizeInput(s);
    SanitizeShape(s);
    FixpointIff(r);
    EndsKept(t);
    PairFromIff(r, false);
    LinesKeepPairs(x, 0, false);
    PairsAfterSqueeze(t, false, false);
    TripleFromIff(r, 0);
    TriplesAfterCut(x, 0, 0);
    SpacesKeepLines(t, false);
    if KeptLines(x, 0) >= 3 {
      HidesLineAtStart(x);
    }
    hide HidesLine, HidesSpace, PairFrom, TripleFrom, KeptLines, SqueezeSpaces, SqueezeNewlines, DropNul, TrimSpace,
      Lines;
  }
}
