/** The string primitives the script relies on:
    String.prototype.split with a one-character separator,
    String.prototype.trim, and String.prototype.toUpperCase (ASCII letters). */
module Text {

  /** `s.split(sep)` for a one-character separator: the pieces between the
      separators, in order; an empty string gives one empty piece, and two
      adjacent separators give an empty piece between them. */
  function Split(s: string, sep: char): (parts: seq<string>)
    ensures |parts| >= 1
    ensures forall i :: 0 <= i < |parts| ==> sep !in parts[i]
  {
    if |s| == 0 then [""]
    else
      var rest := Split(s[1..], sep);
      if s[0] == sep then [""] + rest
      else [[s[0]] + rest[0]] + rest[1..]
  }

  /** `parts.join(sep)`: the inverse of Split. */
  function Join(parts: seq<string>, sep: char): string
    requires |parts| >= 1
  {
    if |parts| == 1 then parts[0] else parts[0] + [sep] + Join(parts[1..], sep)
  }

  /** Joining the pieces of a split restores the original string. */
  lemma {:induction false} JoinSplit(s: string, sep: char)
    ensures Join(Split(s, sep), sep) == s
  {
    if |s| > 0 {
      var rest := Split(s[1..], sep);
      JoinSplit(s[1..], sep);
      assert s == [s[0]] + s[1..];
      if s[0] != sep {
        if |rest| == 1 {
          assert Split(s, sep) == [[s[0]] + rest[0]];
        } else {
          assert Split(s, sep)[1..] == rest[1..];
          assert Join(rest, sep) == rest[0] + [sep] + Join(rest[1..], sep);
        }
      }
    }
  }

  /** A prefix free of separators is glued onto the first piece. */
  lemma {:induction false} SplitFreePrefix(p: string, t: string, sep: char)
    requires sep !in p
    ensures Split(p + t, sep) == [p + Split(t, sep)[0]] + Split(t, sep)[1..]
  {
    if |p| > 0 {
      SplitFreePrefix(p[1..], t, sep);
      assert (p + t)[1..] == p[1..] + t;
      assert (p + t)[0] == p[0];
      assert [p[0]] + (p[1..] + Split(t, sep)[0]) == p + Split(t, sep)[0];
    } else {
      var parts := Split(t, sep);
      assert p + t == t && p + parts[0] == parts[0];
      assert parts == [parts[0]] + parts[1..];
    }
  }

  /** Splitting a join of separator-free pieces gives the pieces back. */
  lemma {:induction false} SplitJoin(parts: seq<string>, sep: char)
    requires |parts| >= 1
    requires forall i :: 0 <= i < |parts| ==> sep !in parts[i]
    ensures Split(Join(parts, sep), sep) == parts
  {
    if |parts| == 1 {
      SplitFreePrefix(parts[0], "", sep);
      assert parts[0] + "" == parts[0];
    } else {
      var tail := Join(parts[1..], sep);
      SplitJoin(parts[1..], sep);
      assert ([sep] + tail)[1..] == tail;
      assert Split([sep] + tail, sep) == [""] + parts[1..];
      assert Join(parts, sep) == parts[0] + ([sep] + tail);
      SplitFreePrefix(parts[0], [sep] + tail, sep);
      assert parts[0] + "" == parts[0];
    }
  }

  /** The characters String.prototype.trim removes: the ECMAScript
      WhiteSpace and LineTerminator code points. */
  predicate IsJsWhitespace(c: char) {
    c == '\t' || c == '\n' || c == '\U{000B}' || c == '\U{000C}' || c == '\r' ||
    c == ' ' || c == '\U{00A0}' || c == '\U{1680}' ||
    ('\U{2000}' <= c <= '\U{200A}') ||
    c == '\U{2028}' || c == '\U{2029}' || c == '\U{202F}' || c == '\U{205F}' ||
    c == '\U{3000}' || c == '\U{FEFF}'
  }

  /** Removes the leading whitespace: the result is a suffix of `s`, what was
      dropped is all whitespace, and the result does not start with whitespace. */
  function TrimStart(s: string): (r: string)
    ensures |r| <= |s| && r == s[|s| - |r|..]
    ensures forall k :: 0 <= k < |s| - |r| ==> IsJsWhitespace(s[k])
    ensures r == [] || !IsJsWhitespace(r[0])
  {
    if |s| > 0 && IsJsWhitespace(s[0]) then TrimStart(s[1..]) else s
  }

  /** Removes the trailing whitespace: the result is a prefix of `s`, what was
      dropped is all whitespace, and the result does not end with whitespace. */
  function TrimEnd(s: string): (r: string)
    ensures |r| <= |s| && r == s[..|r|]
    ensures forall k :: |r| <= k < |s| ==> IsJsWhitespace(s[k])
    ensures r == [] || !IsJsWhitespace(r[|r| - 1])
  {
    if |s| > 0 && IsJsWhitespace(s[|s| - 1]) then TrimEnd(s[..|s| - 1]) else s
  }

  /** `s.trim()`: a contiguous piece of `s` that neither starts nor ends with
      whitespace, with only whitespace cut off on either side. */
  function Trim(s: string): (r: string)
    ensures r == [] || (!IsJsWhitespace(r[0]) && !IsJsWhitespace(r[|r| - 1]))
    ensures exists i :: (0 <= i <= |s| - |r| && r == s[i..][..|r|] &&
      (forall k :: 0 <= k < i ==> IsJsWhitespace(s[k])) &&
      (forall k :: i + |r| <= k < |s| ==> IsJsWhitespace(s[k])))
  {
    var t := TrimStart(s);
    var r := TrimEnd(t);
    TrimWitness(s, t, r);
    r
  }

  /** The two halves of Trim combine: the cut at `|s| - |t|` is the witness. */
  lemma {:induction false} TrimWitness(s: string, t: string, r: string)
    requires t == TrimStart(s) && r == TrimEnd(t)
    ensures r == [] || (!IsJsWhitespace(r[0]) && !IsJsWhitespace(r[|r| - 1]))
    ensures var i := |s| - |t|;
      0 <= i <= |s| - |r| && r == s[i..][..|r|] &&
      (forall k :: 0 <= k < i ==> IsJsWhitespace(s[k])) &&
      (forall k :: i + |r| <= k < |s| ==> IsJsWhitespace(s[k]))
  {
    var i := |s| - |t|;
    assert t == s[i..];
    forall k | i + |r| <= k < |s| ensures IsJsWhitespace(s[k]) {
      assert s[k] == t[k - i];
    }
    if r != [] {
      assert r[0] == t[0];
    }
  }

  /** A trimmed string is empty exactly when the original is all whitespace. */
  lemma TrimEmptyIff(s: string)
    ensures Trim(s) == "" <==> forall k :: 0 <= k < |s| ==> IsJsWhitespace(s[k])
  {
    var t := TrimStart(s);
    if Trim(s) == "" {
      assert t == [];
    }
  }

  /** Trimming is idempotent, so the trimmed name and comment are stable. */
  lemma TrimIdempotent(s: string)
    ensures Trim(Trim(s)) == Trim(s)
  {
    var r := Trim(s);
    if r != [] {
      var t := TrimStart(s);
      assert r == t[..|r|];
      assert r[0] == t[0];
    }
  }

  /** `c.toUpperCase()` for one character, ASCII letters only. */
  function UpperChar(c: char): char {
    if 'a' <= c <= 'z' then (c as int - 32) as char else c
  }

  /** `s.toUpperCase()`, restricted to ASCII letters: same length, every
      lower-case ASCII letter replaced by its capital and nothing else changed. */
  function UpperCase(s: string): (r: string)
    ensures |r| == |s|
    ensures forall i :: 0 <= i < |s| ==> r[i] == UpperChar(s[i])
  {
    if s == [] then [] else [UpperChar(s[0])] + UpperCase(s[1..])
  }

  /** Upper-casing leaves no lower-case ASCII letter and is idempotent. */
  lemma UpperCaseIdempotent(s: string)
    ensures forall i :: 0 <= i < |s| ==> !('a' <= UpperCase(s)[i] <= 'z')
    ensures UpperCase(UpperCase(s)) == UpperCase(s)
  {
  }
}
