/**
  The two `java.lang.String` operations the use cases rely on when they
  validate a name: `trim()` and `isEmpty()`. Java's `trim()` removes every
  leading and trailing char whose code is at or below U+0020 (space and all
  control characters), and nothing else.
 */
module JavaText {

  /** A char that `String.trim()` strips from either end. */
  predicate Trimmable(c: char) {
    c <= ' '
  }

  /** Drops the leading trimmable chars. */
  function TrimStart(s: string): string {
    if |s| > 0 && Trimmable(s[0]) then TrimStart(s[1..]) else s
  }

  /** Drops the trailing trimmable chars. */
  function TrimEnd(s: string): string {
    if |s| > 0 && Trimmable(s[|s| - 1]) then TrimEnd(s[..|s| - 1]) else s
  }

  /** `TrimStart` keeps a suffix, cuts only trimmable chars, and stops at a non-trimmable one. */
  lemma {:induction false} TrimStartCuts(s: string)
    ensures |TrimStart(s)| <= |s| && TrimStart(s) == s[|s| - |TrimStart(s)|..]
    ensures forall i :: 0 <= i < |s| - |TrimStart(s)| ==> Trimmable(s[i])
    ensures |TrimStart(s)| > 0 ==> !Trimmable(TrimStart(s)[0])
  {
    if |s| > 0 && Trimmable(s[0]) {
      TrimStartCuts(s[1..]);
    }
  }

  /** `TrimEnd` keeps a prefix, cuts only trimmable chars, and stops at a non-trimmable one. */
  lemma {:induction false} TrimEndCuts(s: string)
    ensures |TrimEnd(s)| <= |s| && TrimEnd(s) == s[..|TrimEnd(s)|]
    ensures forall i :: |TrimEnd(s)| <= i < |s| ==> Trimmable(s[i])
    ensures |TrimEnd(s)| > 0 ==> !Trimmable(TrimEnd(s)[|TrimEnd(s)| - 1])
  {
    if |s| > 0 && Trimmable(s[|s| - 1]) {
      TrimEndCuts(s[..|s| - 1]);
    }
  }

  /** How many chars `String.trim()` cuts from the front of `s`. */
  function LeadCut(s: string): nat {
    TrimStartCuts(s);
    |s| - |TrimStart(s)|
  }

  /**
    `s.trim()`: the infix of `s` left after cutting trimmable chars from both
    ends, which neither starts nor ends with a trimmable char.
   */
  function Trim(s: string): (r: string)
    ensures LeadCut(s) + |r| <= |s| && r == s[LeadCut(s)..LeadCut(s) + |r|]
    ensures forall i :: 0 <= i < LeadCut(s) ==> Trimmable(s[i])
    ensures forall i :: LeadCut(s) + |r| <= i < |s| ==> Trimmable(s[i])
    ensures |r| > 0 ==> !Trimmable(r[0]) && !Trimmable(r[|r| - 1])
  {
    var t := TrimStart(s);
    TrimStartCuts(s);
    var r := TrimEnd(t);
    TrimEndCuts(t);
    var a := |s| - |t|;
    assert r == s[a..a + |r|];
    r
  }

  /** `s.trim().isEmpty()`: the test every use case applies to a name. */
  predicate IsBlank(s: string) {
    |Trim(s)| == 0
  }

  /** A name as the use cases store it: already trimmed and not blank. */
  predicate IsCleanName(s: string) {
    Trim(s) == s && !IsBlank(s)
  }

  /** A string is blank exactly when every one of its chars is trimmable. */
  lemma BlankIffAllTrimmable(s: string)
    ensures IsBlank(s) <==> forall i :: 0 <= i < |s| ==> Trimmable(s[i])
  {
    var r := Trim(s);
    var a := LeadCut(s);
    if |r| > 0 {
      assert s[a] == r[0];
    }
  }

  /** A string with a non-trimmable char at both ends is its own trim. */
  lemma {:induction false} TrimOfTrimmed(s: string)
    requires |s| > 0 ==> !Trimmable(s[0]) && !Trimmable(s[|s| - 1])
    ensures Trim(s) == s
  {
    assert TrimStart(s) == s;
    assert TrimEnd(s) == s;
  }

  /** Trimming twice is trimming once. */
  lemma TrimIdempotent(s: string)
    ensures Trim(Trim(s)) == Trim(s)
  {
    TrimOfTrimmed(Trim(s));
  }

  /** The trim of a non-blank string is a clean name. */
  lemma TrimIsClean(s: string)
    requires !IsBlank(s)
    ensures IsCleanName(Trim(s))
  {
    TrimIdempotent(s);
  }

  /**
    `String.trim()` as the JDK writes it: advance a start index over
    trimmable chars, then pull the end index back over trimmable chars, and
    take the substring between them.
   */
  method TrimByScan(s: string) returns (r: string)
    ensures r == Trim(s)
  {
    var len := |s|;
    var st := 0;
    while st < len && Trimmable(s[st])
      invariant 0 <= st <= len == |s|
      invariant TrimStart(s[st..]) == TrimStart(s)
    {
      SkipLeading(s, st);
      st := st + 1;
    }
    assert s[st..len] == TrimStart(s);
    while st < len && Trimmable(s[len - 1])
      invariant 0 <= st <= len <= |s|
      invariant TrimEnd(s[st..len]) == Trim(s)
    {
      SkipTrailing(s, st, len);
      len := len - 1;
    }
    r := s[st..len];
  }

  /** A trimmable char at `st` is cut along with everything before it. */
  lemma SkipLeading(s: string, st: nat)
    requires st < |s| && Trimmable(s[st])
    ensures TrimStart(s[st..]) == TrimStart(s[st + 1..])
  {
    assert s[st..][1..] == s[st + 1..];
  }

  /** A trimmable char just before `len` is cut along with everything after it. */
  lemma SkipTrailing(s: string, st: nat, len: nat)
    requires st < len <= |s| && Trimmable(s[len - 1])
    ensures TrimEnd(s[st..len]) == TrimEnd(s[st..len - 1])
  {
    assert s[st..len][..len - 1 - st] == s[st..len - 1];
  }
}
