/**
  The JavaScript string built-ins that the score lookup relies on:
  `trim`, `split` on one character, `replace` of the first occurrence of a
  character, and `toUpperCase` / `toLowerCase`.

  The case mapping is restricted to the letters that Vietnamese text uses
  (ASCII, the Latin-1 letters, Ă Đ Ĩ Ũ Ơ Ư and the block U+1EA0..U+1EF9);
  every other character is left as it is.
 */
module JsText {

  /** The WhiteSpace and LineTerminator code points of ECMAScript, the
      characters that `String.prototype.trim` removes from both ends. */
  predicate IsTrimmable(c: char) {
    || c == '\t' || c == '\n' || c == '\U{000B}' || c == '\U{000C}' || c == '\r'
    || c == ' ' || c == '\U{00A0}' || c == '\U{1680}'
    || ('\U{2000}' <= c <= '\U{200A}')
    || c == '\U{2028}' || c == '\U{2029}' || c == '\U{202F}' || c == '\U{205F}'
    || c == '\U{3000}' || c == '\U{FEFF}'
  }

  /** A string that `trim` leaves unchanged. */
  predicate IsTrimmed(s: string) {
    s == [] || (!IsTrimmable(s[0]) && !IsTrimmable(s[|s| - 1]))
  }

  function TrimStart(s: string): (r: string)
    ensures |r| <= |s| && r == s[|s| - |r|..]
    ensures r == [] || !IsTrimmable(r[0])
  {
    if s != [] && IsTrimmable(s[0]) then TrimStart(s[1..]) else s
  }

  function TrimEnd(s: string): (r: string)
    ensures |r| <= |s| && r == s[..|r|]
    ensures r == [] || !IsTrimmable(r[|r| - 1])
  {
    if s != [] && IsTrimmable(s[|s| - 1]) then TrimEnd(s[..|s| - 1]) else s
  }

  /** `s.trim()`: the infix of `s` left after removing the trimmable
      characters at both ends. */
  function Trim(s: string): (r: string)
    ensures IsTrimmed(r)
    ensures |r| <= |s|
    ensures IsTrimmed(s) ==> r == s
  {
    TrimEnd(TrimStart(s))
  }

  /** Trimming keeps only characters of the original string. */
  lemma TrimKeepsCharacters(s: string)
    ensures forall c :: c in Trim(s) ==> c in s
  {
    var t := TrimStart(s);
    var r := TrimEnd(t);
    assert r == s[|s| - |t|..][..|r|];
    forall c | c in r ensures c in s {
      var k :| 0 <= k < |r| && r[k] == c;
      assert s[|s| - |t| + k] == c;
    }
  }

  /** Everything `TrimStart` drops is whitespace. */
  lemma {:induction false} TrimStartDropsWhitespace(s: string)
    ensures forall i :: 0 <= i < |s| - |TrimStart(s)| ==> IsTrimmable(s[i])
  {
    if s != [] && IsTrimmable(s[0]) {
      TrimStartDropsWhitespace(s[1..]);
    }
  }

  /** Everything `TrimEnd` drops is whitespace. */
  lemma {:induction false} TrimEndDropsWhitespace(s: string)
    ensures forall i :: |TrimEnd(s)| <= i < |s| ==> IsTrimmable(s[i])
  {
    if s != [] && IsTrimmable(s[|s| - 1]) {
      TrimEndDropsWhitespace(s[..|s| - 1]);
    }
  }

  /** A string trims to nothing exactly when it is all whitespace. */
  lemma TrimEmpty(s: string)
    ensures Trim(s) == [] <==> forall i :: 0 <= i < |s| ==> IsTrimmable(s[i])
  {
    var t := TrimStart(s);
    TrimStartDropsWhitespace(s);
    TrimEndDropsWhitespace(t);
    assert Trim(s) == [] ==> t == [];
  }

  /** Whitespace around a trimmed string is removed and nothing more. */
  lemma TrimPadded(c: char, s: string, d: char)
    requires IsTrimmable(c) && IsTrimmable(d) && IsTrimmed(s)
    ensures Trim([c] + s + [d]) == s
  {
    var padded := [c] + s + [d];
    assert padded[1..] == s + [d];
    if s == [] {
      assert padded == [c, d];
      assert TrimStart([d]) == [];
      assert TrimStart(padded) == [];
    } else {
      assert TrimStart(s + [d]) == s + [d];
      assert TrimStart(padded) == s + [d];
      assert (s + [d])[..|s|] == s;
      assert TrimEnd(s + [d]) == TrimEnd(s);
      assert TrimEnd(s) == s;
    }
  }

  /** `xs.map(x => x.trim())`. */
  function TrimAll(xs: seq<string>): (r: seq<string>)
    ensures |r| == |xs|
    ensures forall i :: 0 <= i < |xs| ==> r[i] == Trim(xs[i])
  {
    seq(|xs|, i requires 0 <= i < |xs| => Trim(xs[i]))
  }

  lemma TrimAllSnoc(xs: seq<string>, x: string)
    ensures TrimAll(xs + [x]) == TrimAll(xs) + [Trim(x)]
  {
  }

  /** Strings that are already trimmed are left alone. */
  lemma TrimAllTrimmed(xs: seq<string>)
    requires forall i :: 0 <= i < |xs| ==> IsTrimmed(xs[i])
    ensures TrimAll(xs) == xs
  {
  }

  /** `parts.join(sep)`, with a single-character separator. */
  function Join(parts: seq<string>, sep: char): string {
    if |parts| == 0 then ""
    else if |parts| == 1 then parts[0]
    else Join(parts[..|parts| - 1], sep) + [sep] + parts[|parts| - 1]
  }

  /** `parts` with `t` added to the end of its last piece. */
  function AppendToLast(parts: seq<string>, t: string): (r: seq<string>)
    requires |parts| >= 1
    ensures |r| == |parts|
  {
    parts[..|parts| - 1] + [parts[|parts| - 1] + t]
  }

  /** `s.split(sep)` for a single-character separator: the pieces between
      consecutive separators, always at least one. */
  function Split(s: string, sep: char): (parts: seq<string>)
    ensures |parts| >= 1
  {
    if s == [] then [""]
    else
      var init := Split(s[..|s| - 1], sep);
      if s[|s| - 1] == sep then init + [""] else AppendToLast(init, [s[|s| - 1]])
  }

  /** One more character at the end either opens a new piece or extends the last one. */
  lemma SplitSnoc(u: string, c: char, sep: char)
    ensures Split(u + [c], sep) == if c == sep then Split(u, sep) + [""] else AppendToLast(Split(u, sep), [c])
  {
    assert (u + [c])[..|u + [c]| - 1] == u;
  }

  /** No piece of a split holds the separator. */
  lemma {:induction false} SplitPiecesLackSeparator(s: string, sep: char)
    ensures forall i :: 0 <= i < |Split(s, sep)| ==> sep !in Split(s, sep)[i]
  {
    if s != [] {
      var u, c := s[..|s| - 1], s[|s| - 1];
      assert s == u + [c];
      SplitPiecesLackSeparator(u, sep);
      SplitSnoc(u, c, sep);
    }
  }

  lemma JoinSnoc(parts: seq<string>, sep: char, last: string)
    requires |parts| >= 1
    ensures Join(parts + [last], sep) == Join(parts, sep) + [sep] + last
  {
    assert (parts + [last])[..|parts|] == parts;
  }

  lemma JoinAppendToLast(parts: seq<string>, sep: char, t: string)
    requires |parts| >= 1
    ensures Join(AppendToLast(parts, t), sep) == Join(parts, sep) + t
  {
    var n := |parts|;
    var ps := AppendToLast(parts, t);
    if n > 1 {
      assert ps[..n - 1] == parts[..n - 1];
    }
  }

  /** Joining the pieces of a split with the same separator gives back the text. */
  lemma {:induction false} JoinSplit(s: string, sep: char)
    ensures Join(Split(s, sep), sep) == s
  {
    if s != [] {
      var u, c := s[..|s| - 1], s[|s| - 1];
      assert s == u + [c];
      JoinSplit(u, sep);
      SplitSnoc(u, c, sep);
      if c == sep {
        JoinSnoc(Split(u, sep), sep, "");
        assert u + [sep] + "" == s;
      } else {
        JoinAppendToLast(Split(u, sep), sep, [c]);
      }
    }
  }

  lemma AppendToLastTwice(parts: seq<string>, t: string, c: char)
    requires |parts| >= 1
    ensures AppendToLast(AppendToLast(parts, t), [c]) == AppendToLast(parts, t + [c])
  {
    var once := AppendToLast(parts, t);
    assert once[..|once| - 1] == parts[..|parts| - 1];
    assert once[|once| - 1] + [c] == parts[|parts| - 1] + (t + [c]);
  }

  lemma AppendToLastNothing(parts: seq<string>)
    requires |parts| >= 1
    ensures AppendToLast(parts, "") == parts
  {
    assert parts[|parts| - 1] + "" == parts[|parts| - 1];
  }

  /** Text without the separator only extends the last piece. */
  lemma {:induction false} SplitAppendPlain(s: string, t: string, sep: char)
    requires sep !in t
    ensures Split(s + t, sep) == AppendToLast(Split(s, sep), t)
    decreases |t|
  {
    if t == [] {
      assert s + t == s;
      AppendToLastNothing(Split(s, sep));
    } else {
      var t', c := t[..|t| - 1], t[|t| - 1];
      assert c in t;
      assert t == t' + [c];
      SplitAppendPlain(s, t', sep);
      assert s + t == (s + t') + [c];
      SplitSnoc(s + t', c, sep);
      AppendToLastTwice(Split(s, sep), t', c);
    }
  }

  /** Splitting a join of separator-free pieces gives back the pieces. */
  lemma {:induction false} SplitJoin(parts: seq<string>, sep: char)
    requires |parts| >= 1
    requires forall i :: 0 <= i < |parts| ==> sep !in parts[i]
    ensures Split(Join(parts, sep), sep) == parts
  {
    var n := |parts|;
    if n == 1 {
      SplitJoinSingle(parts[0], sep);
    } else {
      var init := parts[..n - 1];
      SplitJoin(init, sep);
      assert parts == init + [parts[n - 1]];
      JoinSnoc(init, sep, parts[n - 1]);
      SplitJoinStep(Join(init, sep), init, parts[n - 1], sep);
    }
  }

  lemma SplitJoinSingle(piece: string, sep: char)
    requires sep !in piece
    ensures Split(Join([piece], sep), sep) == [piece]
  {
    SplitAppendPlain("", piece, sep);
    assert "" + piece == piece;
    assert AppendToLast([""], piece) == [piece];
  }

  lemma SplitJoinStep(front: string, init: seq<string>, last: string, sep: char)
    requires |init| >= 1 && sep !in last
    requires Split(front, sep) == init
    ensures Split(front + [sep] + last, sep) == init + [last]
  {
    SplitSnoc(front, sep, sep);
    SplitAppendPlain(front + [sep], last, sep);
    var withEmpty := init + [""];
    assert withEmpty[..|init|] == init;
    assert "" + last == last;
  }

  /** `s.replace(from, to)` for single characters: only the FIRST
      occurrence of `from` is replaced. */
  function ReplaceFirst(s: string, from: char, to: char): (r: string)
    ensures |r| == |s|
    ensures forall i :: 0 <= i < |s| ==>
      r[i] == (if s[i] == from && from !in s[..i] then to else s[i])
  {
    if s == [] then []
    else if s[0] == from then [to] + s[1..]
    else
      var rest := ReplaceFirst(s[1..], from, to);
      assert forall i :: 1 <= i < |s| ==> s[1..][..i - 1] == s[1..i];
      [s[0]] + rest
  }

  /** `toUpperCase` on one character of the supported alphabet. */
  function UpperChar(c: char): (u: char)
  {
    if 'a' <= c <= 'z' then (c as int - 32) as char
    else if '\U{00E0}' <= c <= '\U{00FE}' && c != '\U{00F7}' then (c as int - 32) as char
    else if c == '\U{0103}' || c == '\U{0111}' || c == '\U{0129}' || c == '\U{0169}' || c == '\U{01A1}'
    then (c as int - 1) as char
    else if c == '\U{01B0}' then '\U{01AF}'
    else if '\U{1EA0}' <= c <= '\U{1EF9}' && (c as int) % 2 == 1 then (c as int - 1) as char
    else c
  }

  /** `toLowerCase` on one character of the supported alphabet. */
  function LowerChar(c: char): (l: char)
  {
    if 'A' <= c <= 'Z' then (c as int + 32) as char
    else if '\U{00C0}' <= c <= '\U{00DE}' && c != '\U{00D7}' then (c as int + 32) as char
    else if c == '\U{0102}' || c == '\U{0110}' || c == '\U{0128}' || c == '\U{0168}' || c == '\U{01A0}'
    then (c as int + 1) as char
    else if c == '\U{01AF}' then '\U{01B0}'
    else if '\U{1EA0}' <= c <= '\U{1EF9}' && (c as int) % 2 == 0 then (c as int + 1) as char
    else c
  }

  function Upper(s: string): (r: string)
    ensures |r| == |s|
  {
    seq(|s|, i requires 0 <= i < |s| => UpperChar(s[i]))
  }

  function Lower(s: string): (r: string)
    ensures |r| == |s|
  {
    seq(|s|, i requires 0 <= i < |s| => LowerChar(s[i]))
  }
}
