/** The three string operations of Rust's standard library that the parser
    relies on: `str::trim`, `str::to_lowercase` and `str::split(' ')`.
    Whitespace and letter case are modelled for ASCII only. */
module Text {

  /** ASCII whitespace as `char::is_whitespace` sees it: space, tab, line
      feed, vertical tab, form feed and carriage return. */
  predicate IsWhitespace(c: char) {
    c == ' ' || c == '\t' || c == '\n' || c == '\U{000B}' || c == '\U{000C}' || c == '\r'
  }

  predicate AllWhitespace(s: string) {
    forall i :: 0 <= i < |s| ==> IsWhitespace(s[i])
  }

  /** Drops the leading whitespace (`str::trim_start`). */
  function TrimStart(s: string): string
    decreases |s|
  {
    if |s| > 0 && IsWhitespace(s[0]) then TrimStart(s[1..]) else s
  }

  /** Drops the trailing whitespace (`str::trim_end`). */
  function TrimEnd(s: string): string
    decreases |s|
  {
    if |s| > 0 && IsWhitespace(s[|s| - 1]) then TrimEnd(s[..|s| - 1]) else s
  }

  /** What is left after `trim_start` is a suffix of `s` that is empty or
      starts with a non-whitespace character, and only whitespace was cut. */
  lemma {:induction false} TrimStartShape(s: string)
    ensures |TrimStart(s)| <= |s| && TrimStart(s) == s[|s| - |TrimStart(s)|..]
    ensures AllWhitespace(s[..|s| - |TrimStart(s)|])
    ensures |TrimStart(s)| > 0 ==> !IsWhitespace(TrimStart(s)[0])
    decreases |s|
  {
    if |s| > 0 && IsWhitespace(s[0]) {
      TrimStartShape(s[1..]);
      var k := |s| - |TrimStart(s)|;
      assert s[..k] == [s[0]] + s[1..][..k - 1];
      assert s[1..][k - 1..] == s[k..];
    }
  }

  /** What is left after `trim_end` is a prefix of `s` that is empty or ends
      with a non-whitespace character, and only whitespace was cut. */
  lemma {:induction false} TrimEndShape(s: string)
    ensures |TrimEnd(s)| <= |s| && TrimEnd(s) == s[..|TrimEnd(s)|]
    ensures AllWhitespace(s[|TrimEnd(s)|..])
    ensures |TrimEnd(s)| > 0 ==> !IsWhitespace(TrimEnd(s)[|TrimEnd(s)| - 1])
    decreases |s|
  {
    if |s| > 0 && IsWhitespace(s[|s| - 1]) {
      var s' := s[..|s| - 1];
      TrimEndShape(s');
      var k := |TrimEnd(s)|;
      assert s[k..] == s'[k..] + [s[|s| - 1]];
      assert s'[..k] == s[..k];
    }
  }

  /** `str::trim`: both ends. */
  function Trim(s: string): string {
    TrimEnd(TrimStart(s))
  }

  /** A string with non-whitespace ends (or the empty string) is a fixed
      point of trimming. */
  predicate Trimmed(m: string) {
    |m| == 0 || (!IsWhitespace(m[0]) && !IsWhitespace(m[|m| - 1]))
  }

  lemma {:induction false} TrimStartPadded(p: string, t: string)
    requires AllWhitespace(p)
    requires |t| == 0 || !IsWhitespace(t[0])
    ensures TrimStart(p + t) == t
    decreases |p|
  {
    if |p| == 0 {
      assert p + t == t;
    } else {
      assert (p + t)[1..] == p[1..] + t;
      TrimStartPadded(p[1..], t);
    }
  }

  lemma {:induction false} TrimEndPadded(t: string, q: string)
    requires AllWhitespace(q)
    requires |t| == 0 || !IsWhitespace(t[|t| - 1])
    ensures TrimEnd(t + q) == t
    decreases |q|
  {
    if |q| == 0 {
      assert t + q == t;
    } else {
      assert (t + q)[..|t + q| - 1] == t + q[..|q| - 1];
      TrimEndPadded(t, q[..|q| - 1]);
    }
  }

  /** `trim` removes exactly the whitespace padding around a string with
      non-whitespace ends: `Trim(p + m + q) == m`. */
  lemma {:induction false} TrimPadded(p: string, m: string, q: string)
    requires AllWhitespace(p) && AllWhitespace(q) && Trimmed(m)
    ensures Trim(p + m + q) == m
  {
    if |m| == 0 {
      assert p + m + q == p + q;
      assert AllWhitespace(p + q);
      TrimStartPadded(p + q, "");
      assert p + q + "" == p + q;
      assert TrimEnd("") == "";
    } else {
      assert p + m + q == p + (m + q);
      TrimStartPadded(p, m + q);
      TrimEndPadded(m, q);
    }
  }

  /** Trimming twice changes nothing more. */
  lemma TrimIdempotent(s: string)
    ensures Trimmed(Trim(s))
    ensures Trim(Trim(s)) == Trim(s)
  {
    var m := Trim(s);
    var t := TrimStart(s);
    TrimStartShape(s);
    TrimEndShape(t);
    if |m| > 0 {
      assert m[0] == t[0];
    }
    assert Trimmed(m);
    TrimPadded("", m, "");
    assert "" + m + "" == m;
  }

  /** ASCII `char::to_lowercase`: upper-case letters become lower-case,
      everything else is kept. */
  function LowerChar(c: char): (r: char)
    ensures !('A' <= r <= 'Z')
    ensures !('A' <= c <= 'Z') ==> r == c
    ensures 'A' <= c <= 'Z' ==> 'a' <= r <= 'z' && r as int - c as int == 'a' as int - 'A' as int
  {
    if 'A' <= c <= 'Z' then (c as int - 'A' as int + 'a' as int) as char else c
  }

  /** `str::to_lowercase`, character by character. */
  function ToLower(s: string): string
    decreases |s|
  {
    if |s| == 0 then "" else [LowerChar(s[0])] + ToLower(s[1..])
  }

  /** Lower-casing keeps the length and maps every character on its own. */
  lemma {:induction false} ToLowerAt(s: string)
    ensures |ToLower(s)| == |s|
    ensures forall i :: 0 <= i < |s| ==> ToLower(s)[i] == LowerChar(s[i])
    decreases |s|
  {
    if |s| > 0 {
      ToLowerAt(s[1..]);
    }
  }

  predicate IsLowerLetter(x: char) {
    'a' <= x <= 'z'
  }

  /** Lower-casing leaves a string without upper-case letters unchanged. */
  lemma ToLowerIdentity(s: string)
    requires forall i :: 0 <= i < |s| ==> !('A' <= s[i] <= 'Z')
    ensures ToLower(s) == s
  {
    ToLowerAt(s);
  }

  /** `str::split(' ')`: the pieces between single space characters, in
      order; the empty string gives one empty piece, and two adjacent spaces
      give an empty piece between them. */
  function Split(s: string): (r: seq<string>)
    ensures |r| >= 1
    decreases |s|
  {
    if |s| == 0 then [""]
    else
      var rest := Split(s[1..]);
      if s[0] == ' ' then [""] + rest
      else [[s[0]] + rest[0]] + rest[1..]
  }

  /** No piece of a split contains the separator. */
  lemma {:induction false} SplitNoSpace(s: string)
    ensures forall i :: 0 <= i < |Split(s)| ==> ' ' !in Split(s)[i]
    decreases |s|
  {
    if |s| > 0 {
      SplitNoSpace(s[1..]);
    }
  }

  /** Glues pieces back together with one space between neighbours. */
  function Join(parts: seq<string>): string
    decreases |parts|
  {
    if |parts| == 0 then ""
    else if |parts| == 1 then parts[0]
    else parts[0] + " " + Join(parts[1..])
  }

  lemma JoinCons(w: string, rest: seq<string>)
    requires |rest| >= 1
    ensures Join([w] + rest) == w + " " + Join(rest)
  {
    assert ([w] + rest)[1..] == rest;
  }

  /** A join of non-empty pieces starts with the first piece's first
      character and ends with the last piece's last character. */
  lemma {:induction false} JoinEnds(parts: seq<string>)
    requires |parts| >= 1
    requires forall i :: 0 <= i < |parts| ==> |parts[i]| > 0
    ensures |Join(parts)| > 0
    ensures Join(parts)[0] == parts[0][0]
    ensures Join(parts)[|Join(parts)| - 1] == parts[|parts| - 1][|parts[|parts| - 1]| - 1]
    decreases |parts|
  {
    if |parts| > 1 {
      JoinEnds(parts[1..]);
    }
  }

  /** Joining the pieces of a split gives back the original string. */
  lemma {:induction false} JoinSplit(s: string)
    ensures Join(Split(s)) == s
    decreases |s|
  {
    if |s| > 0 {
      var rest := Split(s[1..]);
      JoinSplit(s[1..]);
      if s[0] == ' ' {
        JoinCons("", rest);
        assert s == [' '] + s[1..];
      } else if |rest| == 1 {
        assert s == [s[0]] + s[1..];
      } else {
        JoinCons([s[0]] + rest[0], rest[1..]);
        JoinCons(rest[0], rest[1..]);
        assert rest == [rest[0]] + rest[1..];
        assert s == [s[0]] + s[1..];
      }
    }
  }

  /** A space-free prefix sticks to the first piece. */
  lemma {:induction false} SplitPrepend(w: string, s: string)
    requires ' ' !in w
    ensures Split(w + s) == [w + Split(s)[0]] + Split(s)[1..]
    decreases |w|
  {
    if |w| > 0 {
      var t := w + s;
      assert t[1..] == w[1..] + s;
      SplitPrepend(w[1..], s);
      assert t[0] == w[0];
      assert [w[0]] + (w[1..] + Split(s)[0]) == w + Split(s)[0];
    } else {
      assert w + s == s;
      assert w + Split(s)[0] == Split(s)[0];
      assert Split(s) == [Split(s)[0]] + Split(s)[1..];
    }
  }

  /** Splitting a join of space-free pieces gives back the pieces. */
  lemma {:induction false} SplitJoin(parts: seq<string>)
    requires |parts| >= 1
    requires forall i :: 0 <= i < |parts| ==> ' ' !in parts[i]
    ensures Split(Join(parts)) == parts
    decreases |parts|
  {
    if |parts| == 1 {
      SplitPrepend(parts[0], "");
      assert parts[0] + "" == parts[0];
    } else {
      var rest := parts[1..];
      SplitJoin(rest);
      JoinCons(parts[0], rest);
      var tail := " " + Join(rest);
      assert tail[1..] == Join(rest);
      assert Split(tail) == [""] + rest;
      assert parts[0] + " " + Join(rest) == parts[0] + tail;
      SplitPrepend(parts[0], tail);
      assert parts[0] + "" == parts[0];
      assert parts == [parts[0]] + rest;
    }
  }

  /** Two adjacent spaces in `s` yield an empty piece that is not the
      first one. */
  lemma {:induction false} SplitDoubleSpace(s: string, i: nat)
    requires i + 1 < |s| && s[i] == ' ' && s[i + 1] == ' '
    ensures "" in Split(s)[1..]
    decreases i
  {
    var rest := Split(s[1..]);
    if i == 0 {
      assert s[1..][0] == ' ';
      assert rest == [""] + Split(s[1..][1..]);
      assert Split(s)[1..][0] == "";
    } else {
      SplitDoubleSpace(s[1..], i - 1);
      var j :| 0 <= j < |rest[1..]| && rest[1..][j] == "";
      if s[0] == ' ' {
        assert Split(s)[1..][j + 1] == "";
      } else {
        assert Split(s)[1..][j] == "";
      }
    }
  }
}
