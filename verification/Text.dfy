/** The text operations the adapters share, on ASCII: case, dashes, blanks, separators. */
module Text {

  predicate IsSpace(c: char) {
    9 <= c as int <= 13 || 28 <= c as int <= 32
  }

  /** Tab to carriage return, the four separators, and the space. */
  lemma BlanksAre(c: char)
    ensures IsSpace(c) <==> c in {9 as char, 10 as char, 11 as char, 12 as char, 13 as char, 28 as char, 29 as char, 30 as char, 31 as char, ' '}
  {
  }

  function LowerChar(c: char): char {
    if 'A' <= c <= 'Z' then (c as int + 32) as char else c
  }

  function UpperChar(c: char): char {
    if 'a' <= c <= 'z' then (c as int - 32) as char else c
  }

  function Lower(s: string): string {
    seq(|s|, i requires 0 <= i < |s| => LowerChar(s[i]))
  }

  function Upper(s: string): string {
    seq(|s|, i requires 0 <= i < |s| => UpperChar(s[i]))
  }

  /** Every dash replaced by a colon. */
  function DashesToColons(s: string): string {
    seq(|s|, i requires 0 <= i < |s| => if s[i] == '-' then ':' else s[i])
  }

  function StripLeft(s: string): string {
    if s != "" && IsSpace(s[0]) then StripLeft(s[1..]) else s
  }

  function StripRight(s: string): string {
    if s != "" && IsSpace(s[|s| - 1]) then StripRight(s[..|s| - 1]) else s
  }

  function Strip(s: string): string {
    StripRight(StripLeft(s))
  }

  function Count(s: string, c: char): nat {
    if s == "" then 0 else (if s[0] == c then 1 else 0) + Count(s[1..], c)
  }

  /** No blank at either end. */
  predicate Trimmed(s: string) {
    s == "" || (!IsSpace(s[0]) && !IsSpace(s[|s| - 1]))
  }

  /** Neither an upper-case letter nor a dash. */
  predicate Canonical(s: string) {
    forall i :: 0 <= i < |s| ==> s[i] != '-' && LowerChar(s[i]) == s[i]
  }

  lemma {:induction false} StripLeftIsTail(s: string) returns (k: nat)
    ensures k <= |s| && StripLeft(s) == s[k..]
    ensures StripLeft(s) == "" || !IsSpace(StripLeft(s)[0])
  {
    if s != "" && IsSpace(s[0]) {
      k := StripLeftIsTail(s[1..]);
      assert s[1..][k..] == s[k + 1..];
      k := k + 1;
    } else {
      k := 0;
    }
  }

  lemma {:induction false} StripRightIsPrefix(s: string) returns (k: nat)
    ensures k <= |s| && StripRight(s) == s[..k]
    ensures StripRight(s) == "" || !IsSpace(StripRight(s)[|StripRight(s)| - 1])
  {
    if s != "" && IsSpace(s[|s| - 1]) {
      k := StripRightIsPrefix(s[..|s| - 1]);
      assert s[..|s| - 1][..k] == s[..k];
    } else {
      k := |s|;
    }
  }

  /** Stripping leaves a trimmed slice of the text. */
  lemma StripTrims(s: string)
    ensures Trimmed(Strip(s))
    ensures Canonical(s) ==> Canonical(Strip(s))
    ensures forall c :: c in Strip(s) ==> c in s
  {
    hide StripLeft, StripRight, IsSpace;
    var k := StripLeftIsTail(s);
    var l := StripLeft(s);
    var n := StripRightIsPrefix(l);
    forall i | 0 <= i < n ensures Strip(s)[i] == s[k + i] {
      assert l[i] == s[k + i];
    }
    if n > 0 {
      assert Strip(s)[0] == l[0];
    }
  }

}
