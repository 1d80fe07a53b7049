/** The string operations of the snapshot format: trimming, splitting at a character, splitting
    into lines, and length in UTF-8 bytes. */
module Text {
  import opened Sequences

  /** Characters with the Unicode White_Space property. */
  predicate IsSpace(c: char) {
    || '\U{0009}' <= c <= '\U{000D}' || c == ' ' || c == '\U{0085}' || c == '\U{00A0}' || c == '\U{1680}'
    || '\U{2000}' <= c <= '\U{200A}' || c == '\U{2028}' || c == '\U{2029}' || c == '\U{202F}' || c == '\U{205F}'
    || c == '\U{3000}'
  }

  function TrimStart(s: string): string {
    if s != "" && IsSpace(s[0]) then TrimStart(s[1..]) else s
  }

  function TrimEnd(s: string): string {
    if s != "" && IsSpace(s[|s| - 1]) then TrimEnd(s[..|s| - 1]) else s
  }

  function Trim(s: string): string {
    TrimEnd(TrimStart(s))
  }

  predicate Trimmed(s: string) {
    s == "" || (!IsSpace(s[0]) && !IsSpace(s[|s| - 1]))
  }

  /** The position of the first `c`, or the length if there is none. */
  function IndexOf(s: string, c: char): (i: nat)
    ensures i <= |s| && c !in s[..i] && (i < |s| ==> s[i] == c)
  {
    if s == "" || s[0] == c then 0 else
    var i := 1 + IndexOf(s[1..], c);
    assert s[..i] == [s[0]] + s[1..][..i - 1];
    i
  }

  /** A line that ended in a newline also loses one carriage return before it. */
  function StripReturn(line: string): string {
    if line != "" && line[|line| - 1] == '\r' then line[..|line| - 1] else line
  }

  /** The lines of a text; the last one need not end in a newline. */
  function Lines(s: string): seq<string>
    decreases |s|
  {
    if s == "" then [] else
    var i := IndexOf(s, '\n');
    if i == |s| then [s] else [StripReturn(s[..i])] + Lines(s[i + 1..])
  }

  function Width(c: char): nat {
    if c < '\U{0080}' then 1 else if c < '\U{0800}' then 2 else if c as int < 0x10000 then 3 else 4
  }

  function ByteLength(s: string): nat {
    if s == "" then 0 else ByteLength(s[..|s| - 1]) + Width(s[|s| - 1])
  }

  lemma {:induction false} ByteLengthAppend(a: string, b: string)
    ensures ByteLength(a + b) == ByteLength(a) + ByteLength(b)
  {
    if b == "" {
      assert a + b == a;
    } else {
      assert (a + b)[..|a + b| - 1] == a + b[..|b| - 1];
      ByteLengthAppend(a, b[..|b| - 1]);
    }
  }

  lemma {:induction false} IndexOfAppend(a: string, c: char, b: string)
    requires c !in a
    ensures IndexOf(a + [c] + b, c) == |a|
  {
    var s, i := a + [c] + b, IndexOf(a + [c] + b, c);
    assert s[|a|] == c;
    assert forall j :: 0 <= j < |a| ==> s[j] == a[j] && a[j] in a;
    assert forall j :: 0 <= j < i ==> s[..i][j] == s[j];
  }

  lemma {:induction false} LinesOfAppend(line: string, rest: string)
    requires '\n' !in line
    ensures Lines(line + "\n" + rest) == [StripReturn(line)] + Lines(rest)
  {
    var s := line + "\n" + rest;
    IndexOfAppend(line, '\n', rest);
    assert s[..|line|] == line && s[|line| + 1..] == rest;
  }

  /** A text that ends in a newline contributes its own lines. */
  lemma {:induction false} LinesOfTexts(a: string, b: string)
    requires a == "" || a[|a| - 1] == '\n'
    ensures Lines(a + b) == Lines(a) + Lines(b)
    decreases |a|
  {
    if a == "" {
      assert a + b == b;
    } else {
      var line, rest := FirstLine(a);
      LinesOfTexts(rest, b);
      OneMoreLine(line, rest, b);
      Associative(line + "\n", rest, b);
    }
  }

  lemma {:induction false} OneMoreLine(line: string, rest: string, b: string)
    requires '\n' !in line && Lines(rest + b) == Lines(rest) + Lines(b)
    ensures Lines(line + "\n" + (rest + b)) == Lines(line + "\n" + rest) + Lines(b)
  {
    LinesOfAppend(line, rest);
    LinesOfAppend(line, rest + b);
    Associative([StripReturn(line)], Lines(rest), Lines(b));
  }

  lemma {:induction false} FirstLine(a: string) returns (line: string, rest: string)
    requires a != "" && a[|a| - 1] == '\n'
    ensures a == line + "\n" + rest && '\n' !in line && (rest == "" || rest[|rest| - 1] == '\n')
  {
    assert a[..|a|] == a && a[|a| - 1] in a;
    var i := IndexOf(a, '\n');
    line, rest := a[..i], a[i + 1..];
  }

  lemma {:induction false} LinesHaveNoNewline(s: string)
    ensures forall l :: l in Lines(s) ==> '\n' !in l
    decreases |s|
  {
    if s != "" {
      var i := IndexOf(s, '\n');
      if i < |s| {
        LinesHaveNoNewline(s[i + 1..]);
      } else {
        assert s[..i] == s;
      }
    }
  }

  /** Trimming cuts a piece out of the string that has no space at either end. */
  lemma {:induction false} TrimCuts(s: string)
    ensures Trimmed(Trim(s))
    ensures forall c :: c in Trim(s) ==> c in s
  {
    TrimStartCuts(s);
    TrimEndCuts(TrimStart(s));
  }

  lemma {:induction false} TrimStartCuts(s: string)
    ensures TrimStart(s) == "" || !IsSpace(TrimStart(s)[0])
    ensures forall c :: c in TrimStart(s) ==> c in s
  {
    if s != "" && IsSpace(s[0]) {
      TrimStartCuts(s[1..]);
    }
  }

  lemma {:induction false} TrimEndCuts(s: string)
    ensures TrimEnd(s) <= s
    ensures TrimEnd(s) == "" || !IsSpace(TrimEnd(s)[|TrimEnd(s)| - 1])
  {
    if s != "" && IsSpace(s[|s| - 1]) {
      TrimEndCuts(s[..|s| - 1]);
    }
  }

  lemma {:induction false} TrimOfTrimmed(s: string)
    requires Trimmed(s)
    ensures Trim(s) == s && Trim(s + " ") == s && Trim(" " + s) == s
  {
    assert (" " + s)[1..] == s;
    assert (s + " ")[..|s|] == s;
    if s == "" {
      assert s + " " == " " && TrimStart(" ") == TrimStart(" "[1..]);
    }
  }

  // ---------- what the operations yield ----------

  /** The 25 characters that are trimmed. */
  lemma {:induction false} SpacesByCode(c: char)
    ensures IsSpace(c) <==>
      c as int in {9, 10, 11, 12, 13, 0x20, 0x85, 0xA0, 0x1680, 0x2000, 0x2001, 0x2002, 0x2003, 0x2004, 0x2005,
                   0x2006, 0x2007, 0x2008, 0x2009, 0x200A, 0x2028, 0x2029, 0x202F, 0x205F, 0x3000}
  {
  }

  /** Trimming removes the spaces at both ends, all of them and nothing else. */
  lemma {:induction false} TrimRemovesSpaces(s: string) returns (before: string, after: string)
    ensures s == before + Trim(s) + after && Trimmed(Trim(s))
    ensures forall c :: c in before + after ==> IsSpace(c)
  {
    TrimCuts(s);
    before := CutStart(s);
    after := CutEnd(TrimStart(s));
  }

  lemma {:induction false} CutStart(s: string) returns (before: string)
    ensures s == before + TrimStart(s) && forall c :: c in before ==> IsSpace(c)
  {
    if s != "" && IsSpace(s[0]) {
      before := CutStart(s[1..]);
      before := [s[0]] + before;
    } else {
      before := "";
    }
  }

  lemma {:induction false} CutEnd(s: string) returns (after: string)
    ensures s == TrimEnd(s) + after && forall c :: c in after ==> IsSpace(c)
  {
    if s != "" && IsSpace(s[|s| - 1]) {
      after := CutEnd(s[..|s| - 1]);
      after := after + [s[|s| - 1]];
    } else {
      after := "";
    }
  }

  /** Each newline ends a line, with or without a carriage return before it, and text after the last
      newline is a line of its own. */
  lemma {:induction false} LinesEndAtNewlines(line: string, rest: string)
    requires '\n' !in line
    ensures Lines("") == [] && (line != "" ==> Lines(line) == [line])
    ensures Lines(line + "\r\n" + rest) == [line] + Lines(rest)
    ensures line == "" || line[|line| - 1] != '\r' ==> Lines(line + "\n" + rest) == [line] + Lines(rest)
  {
    LinesOfAppend(line, rest);
    LinesOfAppend(line + "\r", rest);
    assert (line + "\r") + "\n" + rest == line + "\r\n" + rest;
    assert StripReturn(line + "\r") == line;
    assert forall j :: 0 <= j < |line| ==> line[j] in line;
  }

  /** The length is that of the UTF-8 encoding (RFC 3629, section 3): one byte for each character, and
      one more for each that reaches U+0080, U+0800 and U+10000. */
  lemma {:induction false} LengthIsUtf8(s: string)
    ensures ByteLength(s) == |s| + CountFrom(s, 0x80) + CountFrom(s, 0x800) + CountFrom(s, 0x10000)
  {
    if s != "" {
      LengthIsUtf8(s[..|s| - 1]);
      OneMoreCharacter(s, 0x80);
      OneMoreCharacter(s, 0x800);
      OneMoreCharacter(s, 0x10000);
    }
  }

  /** How many characters of the text have this code or a larger one. */
  function CountFrom(s: string, code: int): nat {
    |set i | 0 <= i < |s| && s[i] as int >= code|
  }

  lemma {:induction false} OneMoreCharacter(s: string, code: int)
    requires s != ""
    ensures CountFrom(s, code) == CountFrom(s[..|s| - 1], code) + if s[|s| - 1] as int >= code then 1 else 0
  {
    var n := |s| - 1;
    var all, front := set i | 0 <= i < |s| && s[i] as int >= code, set i | 0 <= i < n && s[..n][i] as int >= code;
    assert all == if s[n] as int >= code then front + {n} else front;
  }
}
