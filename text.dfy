/**
 * String trimming as JavaScript's `String.prototype.trim` does it (the
 * ECMAScript Language Specification, section "String.prototype.trim ( )" and
 * its TrimString operation): leading and trailing code points that are
 * WhiteSpace or LineTerminator (sections "White Space" and "Line
 * Terminators") are removed.
 */
module Text {

  /**
   * The WhiteSpace code points (TAB, VT, FF, ZWNBSP and the Space_Separator
   * category) and the LineTerminator code points (LF, CR, LINE SEPARATOR,
   * PARAGRAPH SEPARATOR) of the ECMAScript sections "White Space" and
   * "Line Terminators".
   */
  predicate IsWhiteSpace(c: char) {
    c == '\U{0009}' || c == '\U{000B}' || c == '\U{000C}' || c == '\U{FEFF}' ||
    c == '\U{0020}' || c == '\U{00A0}' || c == '\U{1680}' ||
    ('\U{2000}' <= c <= '\U{200A}') ||
    c == '\U{202F}' || c == '\U{205F}' || c == '\U{3000}' ||
    c == '\U{000A}' || c == '\U{000D}' || c == '\U{2028}' || c == '\U{2029}'
  }

  predicate AllWhiteSpace(s: string) {
    forall i :: 0 <= i < |s| ==> IsWhiteSpace(s[i])
  }

  /** `s` with its leading white space removed: a suffix of `s` that starts with a non-blank. */
  function TrimStart(s: string): (r: string)
    ensures |r| <= |s| && r == s[|s| - |r|..]
    ensures forall i :: 0 <= i < |s| - |r| ==> IsWhiteSpace(s[i])
    ensures r == [] || !IsWhiteSpace(r[0])
  {
    if s != [] && IsWhiteSpace(s[0]) then TrimStart(s[1..]) else s
  }

  /** `s` with its trailing white space removed: a prefix of `s` that ends with a non-blank. */
  function TrimEnd(s: string): (r: string)
    ensures |r| <= |s| && r == s[..|r|]
    ensures forall i :: |r| <= i < |s| ==> IsWhiteSpace(s[i])
    ensures r == [] || !IsWhiteSpace(r[|r| - 1])
  {
    if s != [] && IsWhiteSpace(s[|s| - 1]) then TrimEnd(s[..|s| - 1]) else s
  }

  /** `s.trim()`: empty exactly when `s` is blank, otherwise framed by non-blanks. */
  function Trim(s: string): (r: string)
    ensures |r| <= |s|
    ensures r == [] <==> AllWhiteSpace(s)
    ensures r != [] ==> !IsWhiteSpace(r[0]) && !IsWhiteSpace(r[|r| - 1])
  {
    TrimShape(s);
    TrimEnd(TrimStart(s))
  }

  /** The facts behind Trim's contract, about the two passes it makes. */
  lemma TrimShape(s: string)
    ensures TrimEnd(TrimStart(s)) == [] <==> AllWhiteSpace(s)
    ensures var r := TrimEnd(TrimStart(s)); r != [] ==> !IsWhiteSpace(r[0])
  {
    var u := TrimStart(s);
    var r := TrimEnd(u);
    if r != [] {
      assert r[0] == u[0];
    }
  }

  /** Stripping a white prefix that stops at a non-blank leaves exactly the rest. */
  lemma {:induction false} TrimStartFrom(s: string, i: nat)
    requires i <= |s| && forall k :: 0 <= k < i ==> IsWhiteSpace(s[k])
    requires i == |s| || !IsWhiteSpace(s[i])
    ensures TrimStart(s) == s[i..]
  {
    if i > 0 {
      var t := s[1..];
      assert forall k :: 0 <= k < i - 1 ==> t[k] == s[k + 1];
      TrimStartFrom(t, i - 1);
      assert t[i - 1..] == s[i..];
    }
  }

  /** Stripping a white suffix that starts after a non-blank leaves exactly the rest. */
  lemma {:induction false} TrimEndTo(s: string, j: nat)
    requires j <= |s| && forall k :: j <= k < |s| ==> IsWhiteSpace(s[k])
    requires j == 0 || !IsWhiteSpace(s[j - 1])
    ensures TrimEnd(s) == s[..j]
    decreases |s|
  {
    if j < |s| {
      var t := s[..|s| - 1];
      assert forall k :: j <= k < |t| ==> t[k] == s[k];
      TrimEndTo(t, j);
      assert t[..j] == s[..j];
    }
  }

  /**
   * Trim is determined by where the white margins end: whenever `s` is a white
   * prefix, then `s[i..j]` framed by non-blanks (or empty), then a white suffix,
   * trimming yields exactly `s[i..j]`.
   */
  lemma TrimCharacterised(s: string, i: nat, j: nat)
    requires i <= j <= |s|
    requires forall k :: 0 <= k < i ==> IsWhiteSpace(s[k])
    requires forall k :: j <= k < |s| ==> IsWhiteSpace(s[k])
    requires i == j || (!IsWhiteSpace(s[i]) && !IsWhiteSpace(s[j - 1]))
    ensures Trim(s) == s[i..j]
  {
    if i == j {
      assert AllWhiteSpace(s);
    } else {
      TrimInner(s, i, j);
    }
  }

  lemma TrimInner(s: string, i: nat, j: nat)
    requires i < j <= |s|
    requires forall k :: 0 <= k < i ==> IsWhiteSpace(s[k])
    requires forall k :: j <= k < |s| ==> IsWhiteSpace(s[k])
    requires !IsWhiteSpace(s[i]) && !IsWhiteSpace(s[j - 1])
    ensures TrimEnd(TrimStart(s)) == s[i..j]
  {
    calc {
      TrimEnd(TrimStart(s));
      { TrimStartFrom(s, i); }
      TrimEnd(s[i..]);
      { TrimEndOfSuffix(s, i, j); }
      s[i..j];
    }
  }

  /** Trimming twice is trimming once. */
  lemma TrimIdempotent(s: string)
    ensures Trim(Trim(s)) == Trim(s)
  {
    var t := Trim(s);
    TrimCharacterised(t, 0, |t|);
  }

  /** A concrete line: the white margins of what was typed go, the words stay. */
  lemma TrimScenario()
    ensures Trim(" \t Buy milk\n") == "Buy milk"
  {
    var s := " \t Buy milk\n";
    assert s[3..11] == "Buy milk";
    TrimCharacterised(s, 3, 11);
  }

  lemma TrimEndOfSuffix(s: string, i: nat, j: nat)
    requires i < j <= |s|
    requires forall k :: j <= k < |s| ==> IsWhiteSpace(s[k])
    requires !IsWhiteSpace(s[j - 1])
    ensures TrimEnd(s[i..]) == s[i..j]
  {
    SliceOfSuffix(s, i, j);
    TrimEndTo(s[i..], j - i);
  }

  lemma SliceOfSuffix(s: string, i: nat, j: nat)
    requires i <= j <= |s|
    ensures s[i..][..j - i] == s[i..j]
    ensures forall k :: j - i <= k < |s| - i ==> s[i..][k] == s[k + i]
  {
  }
}
