/** String helpers shared by the handlers: JavaScript's `trim`, the `\s` class of
    its regular expressions, `toLowerCase` (ASCII letters only) and `includes`. */
module Text {

  /** The characters JavaScript counts as white space: WhiteSpace plus
      LineTerminator. `String.prototype.trim` strips exactly these, and the
      regular-expression class `\s` matches exactly these. */
  predicate IsSpace(c: char) {
    c == '\t' || c == '\n' || c == '\U{000B}' || c == '\U{000C}' || c == '\r' || c == ' ' ||
    c == '\U{00A0}' || c == '\U{1680}' || ('\U{2000}' <= c <= '\U{200A}') ||
    c == '\U{2028}' || c == '\U{2029}' || c == '\U{202F}' || c == '\U{205F}' ||
    c == '\U{3000}' || c == '\U{FEFF}'
  }

  predicate NoSpace(s: string) {
    forall i :: 0 <= i < |s| ==> !IsSpace(s[i])
  }

  predicate AllSpace(s: string) {
    forall i :: 0 <= i < |s| ==> IsSpace(s[i])
  }

  /** Drops leading white space. */
  function TrimStart(s: string): (r: string)
    ensures |r| <= |s| && r == s[|s| - |r|..]
    ensures AllSpace(s[..|s| - |r|])
    ensures r == [] || !IsSpace(r[0])
  {
    if s != [] && IsSpace(s[0]) then TrimStart(s[1..]) else s
  }

  /** Drops trailing white space. */
  function TrimEnd(s: string): (r: string)
    ensures |r| <= |s| && r == s[..|r|]
    ensures AllSpace(s[|r|..])
    ensures r == [] || !IsSpace(r[|r| - 1])
  {
    if s != [] && IsSpace(s[|s| - 1]) then TrimEnd(s[..|s| - 1]) else s
  }

  /** `s.trim()`: the longest slice of `s` that neither starts nor ends with
      white space, obtained by removing only white space. */
  function Trim(s: string): (r: string)
    ensures exists i, j :: 0 <= i <= j <= |s| && r == s[i..j] && AllSpace(s[..i]) && AllSpace(s[j..])
    ensures r == [] || (!IsSpace(r[0]) && !IsSpace(r[|r| - 1]))
  {
    TrimSlice(s);
    TrimClean(s);
    TrimEnd(TrimStart(s))
  }

  /** The two passes remove white space only. */
  lemma {:induction false} TrimSlice(s: string)
    ensures var r := TrimEnd(TrimStart(s));
            exists i, j :: 0 <= i <= j <= |s| && r == s[i..j] && AllSpace(s[..i]) && AllSpace(s[j..])
  {
    var t := TrimStart(s);
    var r := TrimEnd(t);
    TrimSlices(s, t, r);
    var i := |s| - |t|;
    assert r == s[i..i + |r|] && AllSpace(s[..i]) && AllSpace(s[i + |r|..]);
  }

  /** The two passes leave no white space at either end. */
  lemma {:induction false} TrimClean(s: string)
    ensures var r := TrimEnd(TrimStart(s)); r == [] || (!IsSpace(r[0]) && !IsSpace(r[|r| - 1]))
  {
    var t := TrimStart(s);
    var r := TrimEnd(t);
    if r != [] {
      assert r[0] == t[0];
    }
  }

  /** Trimming a lowercased string leaves no capital and does not lengthen it. */
  lemma {:induction false} LowerTrimmed(s: string)
    ensures |Trim(ToLower(s))| <= |s|
    ensures NoCapital(Trim(ToLower(s)))
  {
    var lower := ToLower(s);
    assert NoCapital(lower);
    var t := TrimStart(lower);
    NoCapitalSlice(lower, |lower| - |t|, |lower|);
    var r := TrimEnd(t);
    NoCapitalSlice(t, 0, |r|);
    assert Trim(lower) == r;
  }

  /** No ASCII capital letter occurs in `s`. */
  predicate NoCapital(s: string) {
    forall k :: 0 <= k < |s| ==> !('A' <= s[k] <= 'Z')
  }

  lemma NoCapitalSlice(s: string, i: nat, j: nat)
    requires NoCapital(s) && i <= j <= |s|
    ensures NoCapital(s[i..j])
  {
    forall k | 0 <= k < j - i ensures !('A' <= s[i..j][k] <= 'Z') {
      assert s[i..j][k] == s[i + k];
    }
  }

  lemma {:induction false} TrimSlices(s: string, t: string, r: string)
    requires |t| <= |s| && t == s[|s| - |t|..] && AllSpace(s[..|s| - |t|])
    requires |r| <= |t| && r == t[..|r|] && AllSpace(t[|r|..])
    ensures var i := |s| - |t|; r == s[i..i + |r|] && AllSpace(s[..i]) && AllSpace(s[i + |r|..])
  {
    var i := |s| - |t|;
    assert s[i + |r|..] == t[|r|..];
  }

  /** Trimming yields the empty string exactly when the input is all white space. */
  lemma {:induction false} TrimEmpty(s: string)
    ensures Trim(s) == [] <==> AllSpace(s)
  {
    if Trim(s) == [] {
      EmptyTrimAllSpace(s);
    } else {
      NonEmptyTrim(s);
    }
  }

  lemma {:induction false} NonEmptyTrim(s: string)
    requires Trim(s) != []
    ensures !AllSpace(s)
  {
    var r := Trim(s);
    var i, j :| 0 <= i <= j <= |s| && r == s[i..j] && AllSpace(s[..i]) && AllSpace(s[j..]);
    assert i < |s| && s[i] == r[0];
    assert !IsSpace(s[i]);
  }

  lemma {:induction false} EmptyTrimAllSpace(s: string)
    requires Trim(s) == []
    ensures AllSpace(s)
  {
    var t := TrimStart(s);
    var n := |s| - |t|;
    assert TrimEnd(t) == [];
    assert AllSpace(t) by { assert t[0..] == t; }
    assert AllSpace(s[..n]);
    forall k | 0 <= k < |s| ensures IsSpace(s[k]) {
      if k < n {
        assert s[k] == s[..n][k];
      } else {
        assert s[k] == t[k - n];
      }
    }
  }

  /** A string without white space is its own trim. */
  lemma TrimNoSpace(s: string)
    requires NoSpace(s)
    ensures Trim(s) == s
  {
    if s != [] {
      assert !IsSpace(s[0]) && !IsSpace(s[|s| - 1]);
    }
  }

  /** `toLowerCase` on one character, for the ASCII letters. */
  function LowerChar(c: char): (r: char)
    ensures 'A' <= c <= 'Z' ==> 'a' <= r <= 'z' && r as int - c as int == 32
    ensures !('A' <= c <= 'Z') ==> r == c
  {
    if 'A' <= c <= 'Z' then (c as int + 32) as char else c
  }

  /** `s.toLowerCase()` (ASCII letters only): each capital becomes its small
      letter, every other character stays, and no capital is left. */
  function ToLower(s: string): (r: string)
    ensures |r| == |s|
    ensures forall i :: 0 <= i < |s| && 'A' <= s[i] <= 'Z' ==> r[i] as int == s[i] as int + 32
    ensures forall i :: 0 <= i < |s| && !('A' <= s[i] <= 'Z') ==> r[i] == s[i]
    ensures forall i :: 0 <= i < |r| ==> !('A' <= r[i] <= 'Z')
  {
    seq(|s|, i requires 0 <= i < |s| => LowerChar(s[i]))
  }

  /** Lowercasing twice is lowercasing once. */
  lemma ToLowerIdempotent(s: string)
    ensures ToLower(ToLower(s)) == ToLower(s)
  {
    var once := ToLower(s);
    forall i | 0 <= i < |s| ensures ToLower(once)[i] == once[i] {
      assert 'a' <= once[i] <= 'z' || once[i] == s[i];
    }
  }

  /** Lowercasing never creates or removes white space, '@' or '.'. */
  lemma LowerCharKeepsClass(c: char)
    ensures IsSpace(LowerChar(c)) == IsSpace(c)
    ensures (LowerChar(c) == '@') == (c == '@')
    ensures (LowerChar(c) == '.') == (c == '.')
  {
  }

  predicate StartsWith(s: string, prefix: string) {
    |prefix| <= |s| && s[..|prefix|] == prefix
  }

  /** `sub` occurs in `s` starting at offset `i`. */
  predicate OccursAt(s: string, sub: string, i: int) {
    0 <= i && i + |sub| <= |s| && s[i..i + |sub|] == sub
  }

  /** `s.includes(sub)`: `sub` occurs in `s` at some offset. */
  function Includes(s: string, sub: string): (r: bool)
    ensures r <==> exists i :: OccursAt(s, sub, i)
  {
    if StartsWith(s, sub) then
      assert OccursAt(s, sub, 0);
      true
    else if s == [] then
      assert forall i :: !OccursAt(s, sub, i);
      false
    else
      var r := Includes(s[1..], sub);
      OccursInTail(s, sub);
      r
  }

  lemma OccursInTail(s: string, sub: string)
    requires s != [] && !StartsWith(s, sub)
    ensures forall i :: OccursAt(s, sub, i) ==> i >= 1 && OccursAt(s[1..], sub, i - 1)
    ensures forall j :: OccursAt(s[1..], sub, j) ==> OccursAt(s, sub, j + 1)
  {
    forall i | OccursAt(s, sub, i) || OccursAt(s[1..], sub, i - 1)
      ensures i >= 1 && OccursAt(s[1..], sub, i - 1) <==> OccursAt(s, sub, i)
    {
      if 1 <= i && i + |sub| <= |s| {
        var a, b := s[i..i + |sub|], s[1..][i - 1..i - 1 + |sub|];
        assert forall k :: 0 <= k < |a| ==> a[k] == s[i + k] == b[k];
      }
      assert OccursAt(s, sub, 0) ==> StartsWith(s, sub);
    }
  }
}
