/** The JavaScript string built-ins the server's configuration code relies on:
    `split` on a one-character separator, its inverse `join`, and `trim`.
    Each character stands for one UTF-16 code unit. */
module JsStrings {

  /** The characters `String.prototype.trim` removes: ECMAScript WhiteSpace
      (tab, vertical tab, form feed, byte-order mark and the Zs space
      separators) and LineTerminator (LF, CR, line and paragraph separators). */
  predicate IsWhiteSpace(c: char)
  {
    || c == '\t' || c == '\n' || c == '\U{000B}' || c == '\U{000C}' || c == '\r'
    || c == ' ' || c == '\U{00A0}' || c == '\U{1680}'
    || ('\U{2000}' <= c <= '\U{200A}')
    || c == '\U{2028}' || c == '\U{2029}' || c == '\U{202F}' || c == '\U{205F}'
    || c == '\U{3000}' || c == '\U{FEFF}'
  }

  /** `s.split(sep)`: the maximal pieces between separators, always at least
      one (the empty string splits into one empty piece). */
  function Split(s: string, sep: char): (parts: seq<string>)
    ensures |parts| >= 1
    ensures forall i :: 0 <= i < |parts| ==> sep !in parts[i]
    decreases |s|
  {
    if s == [] then [[]]
    else
      var rest := Split(s[1..], sep);
      if s[0] == sep then [[]] + rest
      else [[s[0]] + rest[0]] + rest[1..]
  }

  /** `parts.join(sep)`. */
  function Join(parts: seq<string>, sep: char): string
    decreases |parts|
  {
    if parts == [] then []
    else if |parts| == 1 then parts[0]
    else parts[0] + [sep] + Join(parts[1..], sep)
  }

  /** Joining the pieces of a split gives back the original string. */
  lemma {:induction false} JoinSplit(s: string, sep: char)
    ensures Join(Split(s, sep), sep) == s
    decreases |s|
  {
    if s != [] {
      var rest := Split(s[1..], sep);
      JoinSplit(s[1..], sep);
      if s[0] == sep {
        assert Split(s, sep) == [[]] + rest;
        assert s == [] + [sep] + s[1..];
      } else {
        var parts := Split(s, sep);
        assert parts == [[s[0]] + rest[0]] + rest[1..];
        if |rest| == 1 {
          assert Join(rest, sep) == rest[0];
        } else {
          assert parts[1..] == rest[1..];
          assert Join(rest, sep) == rest[0] + [sep] + Join(rest[1..], sep);
        }
        assert s == [s[0]] + s[1..];
      }
    }
  }

  /** Splitting the join of separator-free pieces gives back the pieces. */
  lemma {:induction false} SplitJoin(parts: seq<string>, sep: char)
    requires |parts| >= 1
    requires forall i :: 0 <= i < |parts| ==> sep !in parts[i]
    ensures Split(Join(parts, sep), sep) == parts
    decreases |parts|, |parts[0]|
  {
    var head := parts[0];
    if head == [] {
      if |parts| > 1 {
        SplitJoin(parts[1..], sep);
        var joined := Join(parts, sep);
        assert joined == [sep] + Join(parts[1..], sep);
        assert joined[1..] == Join(parts[1..], sep);
        assert parts == [[]] + parts[1..];
      }
    } else {
      var shorter := [head[1..]] + parts[1..];
      assert forall i :: 0 <= i < |shorter| ==> sep !in shorter[i] by {
        forall i | 0 <= i < |shorter| ensures sep !in shorter[i] {
          if i == 0 {
            assert forall k :: 0 <= k < |head[1..]| ==> head[1..][k] == head[k + 1];
          } else {
            assert shorter[i] == parts[i];
          }
        }
      }
      SplitJoin(shorter, sep);
      var joined := Join(parts, sep);
      assert joined == [head[0]] + Join(shorter, sep) by {
        if |parts| == 1 {
          assert head == [head[0]] + head[1..];
        } else {
          assert shorter[1..] == parts[1..];
          assert head == [head[0]] + head[1..];
        }
      }
      assert head[0] == parts[0][0];
      assert head[0] != sep;
      assert joined[1..] == Join(shorter, sep);
      assert parts == [[head[0]] + head[1..]] + parts[1..];
    }
  }

  /** Number of leading white-space characters of `s`. */
  function LeadingWhiteSpace(s: string): (n: nat)
    ensures n <= |s|
    ensures forall i :: 0 <= i < n ==> IsWhiteSpace(s[i])
    ensures n < |s| ==> !IsWhiteSpace(s[n])
    decreases |s|
  {
    if s == [] || !IsWhiteSpace(s[0]) then 0 else 1 + LeadingWhiteSpace(s[1..])
  }

  /** Number of trailing white-space characters of `s`. */
  function TrailingWhiteSpace(s: string): (n: nat)
    ensures n <= |s|
    ensures forall i :: |s| - n <= i < |s| ==> IsWhiteSpace(s[i])
    ensures n < |s| ==> !IsWhiteSpace(s[|s| - n - 1])
    decreases |s|
  {
    if s == [] || !IsWhiteSpace(s[|s| - 1]) then 0 else 1 + TrailingWhiteSpace(s[..|s| - 1])
  }

  /** The bounds `trim` keeps: only white space lies outside them, and the
      kept part neither starts nor ends with white space. */
  function TrimBounds(s: string): (b: (nat, nat))
    ensures b.0 <= b.1 <= |s|
    ensures forall i :: 0 <= i < b.0 ==> IsWhiteSpace(s[i])
    ensures forall i :: b.1 <= i < |s| ==> IsWhiteSpace(s[i])
    ensures b.0 < b.1 ==> !IsWhiteSpace(s[b.0]) && !IsWhiteSpace(s[b.1 - 1])
  {
    var start := LeadingWhiteSpace(s);
    var end := |s| - TrailingWhiteSpace(s);
    if end < start then (start, start) else (start, end)
  }

  /** `s.trim()`: a stretch of `s`, so never longer and made only of
      characters of `s`. */
  function Trim(s: string): (t: string)
    ensures |t| <= |s|
    ensures forall c :: c in t ==> c in s
  {
    var (start, end) := TrimBounds(s);
    s[start..end]
  }

  /** Trimming yields the empty string exactly when `s` is all white space,
      and otherwise a string with no white space at either end. */
  lemma TrimShape(s: string)
    ensures Trim(s) == [] <==> forall i :: 0 <= i < |s| ==> IsWhiteSpace(s[i])
    ensures Trim(s) != [] ==> !IsWhiteSpace(Trim(s)[0]) && !IsWhiteSpace(Trim(s)[|Trim(s)| - 1])
  {
    var (start, end) := TrimBounds(s);
    if start == end {
      assert forall i :: 0 <= i < |s| ==> IsWhiteSpace(s[i]);
    } else {
      assert Trim(s)[0] == s[start];
      assert !IsWhiteSpace(s[start]);
    }
  }

  /** Trimming twice is trimming once. */
  lemma TrimIdempotent(s: string)
    ensures Trim(Trim(s)) == Trim(s)
  {
    var t := Trim(s);
    TrimShape(s);
    if t != [] {
      var (a, b) := TrimBounds(t);
      assert a == 0;
      assert b == |t|;
    } else {
      assert TrimBounds(t) == (0, 0);
    }
  }
}
