/** NUL-terminated text and the string routines the file system code rests on. */
module CStrings {

  const NUL: char := '\0'

  /** What a path buffer holds, its terminator included. */
  const MAX_PATH: nat := 256

  /** The characters before the first NUL, or all of them when there is none. */
  function Text(s: seq<char>): (t: seq<char>)
    ensures t <= s && NUL !in t
    ensures |t| < |s| ==> s[|t|] == NUL
  {
    if s == [] || s[0] == NUL then [] else [s[0]] + Text(s[1..])
  }

  /** At most the first `n` characters. */
  function Take(s: seq<char>, n: nat): seq<char> {
    if |s| <= n then s else s[..n]
  }

  lemma TextIs(s: seq<char>, t: seq<char>)
    requires t <= s && NUL !in t && (|t| == |s| || s[|t|] == NUL)
    ensures Text(s) == t
  {
    assert |t| < |s| ==> s[|t|] !in Text(s);
  }

  /** A terminated string: its text, then a NUL. */
  predicate Terminated(s: seq<char>) {
    NUL in s
  }

  lemma TextEndsInside(s: seq<char>)
    requires Terminated(s)
    ensures |Text(s)| < |s|
  {
  }

  /** `strnlen` */
  method Strnlen(s: seq<char>, max: nat) returns (len: nat)
    requires Terminated(s) || max <= |s|
    ensures len == |Take(Text(s), max)|
  {
    len := 0;
    while len < max && s[len] != NUL
      invariant len <= max && len <= |Text(s)|
    {
      len := len + 1;
    }
  }

  lemma TextGoesOn(s: seq<char>, i: nat)
    requires i <= |Text(s)| && i < |s| && s[i] != NUL
    ensures i < |Text(s)|
  {
    hide Text;
  }

  lemma OneMoreEqual(a: seq<char>, b: seq<char>, i: nat)
    requires i < |a| && i < |b| && a[..i] == b[..i] && a[i] == b[i]
    ensures a[..i + 1] == b[..i + 1]
  {
    assert a[..i + 1] == a[..i] + [a[i]] && b[..i + 1] == b[..i] + [b[i]];
  }

  /** `strncmp`: zero exactly when the strings agree on their first `n` characters, terminators included. */
  method Strncmp(a: seq<char>, b: seq<char>, n: nat) returns (order: int)
    requires Terminated(a) && Terminated(b)
    ensures order == 0 <==> Take(Text(a), n) == Take(Text(b), n)
  {
    if n == 0 {
      return 0;
    }
    var left, i := n - 1, 0;
    TextEndsInside(a);
    TextEndsInside(b);
    hide Text, Take;
    while left != 0 && a[i] != NUL && a[i] == b[i]
      invariant left == n - 1 - i && i < n && i <= |Text(a)| && i <= |Text(b)| && a[..i] == b[..i]
      decreases left
    {
      TextGoesOn(a, i);
      TextGoesOn(b, i);
      OneMoreEqual(a, b, i);
      left, i := left - 1, i + 1;
    }
    order := a[i] as int - b[i] as int;
    if order == 0 {
      SamePrefix(a, b, i, n);
    } else {
      PrefixesDiffer(a, b, i, n);
    }
  }

  /** Two strings that agree on `i` characters and the next one, where both end or the bound does. */
  lemma SamePrefix(a: seq<char>, b: seq<char>, i: nat, n: nat)
    requires i <= |Text(a)| < |a| && i <= |Text(b)| < |b| && i < n
    requires a[..i] == b[..i] && a[i] == b[i] && (a[i] == NUL || i == n - 1)
    ensures Take(Text(a), n) == Take(Text(b), n)
  {
    hide Text;
    if a[i] == NUL {
      TextEndsAt(a, i);
      TextEndsAt(b, i);
    } else {
      TakeOfText(a, n);
      TakeOfText(b, n);
      OneMoreEqual(a, b, i);
    }
  }

  lemma TakeOfText(s: seq<char>, n: nat)
    requires 0 < n <= |s| && n - 1 <= |Text(s)| && s[n - 1] != NUL
    ensures Take(Text(s), n) == s[..n]
  {
    hide Text;
    var t := Text(s);
    assert t == s[..|t|];
    assert n <= |t|;
  }

  lemma PrefixesDiffer(a: seq<char>, b: seq<char>, i: nat, n: nat)
    requires i <= |Text(a)| < |a| && i <= |Text(b)| < |b| && i < n && a[i] != b[i]
    ensures Take(Text(a), n) != Take(Text(b), n)
  {
    hide Text;
    var ta, tb := Take(Text(a), n), Take(Text(b), n);
    if i < |ta| && i < |tb| {
      assert ta[i] == a[i] && tb[i] == b[i];
    } else {
      assert |ta| != |tb|;
    }
  }

  /** `strcmp(a, b) == 0` for terminated strings. */
  method Strcmp(a: seq<char>, b: seq<char>) returns (order: int)
    requires Terminated(a) && Terminated(b)
    ensures order == 0 <==> Text(a) == Text(b)
  {
    var i := 0;
    TextEndsInside(a);
    TextEndsInside(b);
    hide Text;
    while a[i] != NUL && a[i] == b[i]
      invariant i <= |Text(a)| && i <= |Text(b)| && a[..i] == b[..i]
      decreases |a| - i
    {
      TextGoesOn(a, i);
      TextGoesOn(b, i);
      OneMoreEqual(a, b, i);
      i := i + 1;
    }
    order := a[i] as int - b[i] as int;
    if order == 0 {
      TextEndsAt(a, i);
      TextEndsAt(b, i);
    } else {
      TextsDiffer(a, b, i);
    }
  }

  lemma TextEndsAt(s: seq<char>, i: nat)
    requires i <= |Text(s)| < |s| && s[i] == NUL
    ensures Text(s) == s[..i]
  {
    hide Text;
    TextIs(s, s[..i]);
  }

  lemma TextsDiffer(a: seq<char>, b: seq<char>, i: nat)
    requires i <= |Text(a)| < |a| && i <= |Text(b)| < |b| && a[i] != b[i]
    ensures Text(a) != Text(b)
  {
    hide Text;
    if i < |Text(a)| && i < |Text(b)| {
      assert Text(a)[i] == a[i] && Text(b)[i] == b[i];
    }
  }

  /** `strncpy`: copies the text, then pads with NULs; exactly `n` characters of `dst` are written. */
  method Strncpy(dst: array<char>, src: seq<char>, n: nat)
    requires n <= dst.Length && (Terminated(src) || n <= |src|)
    modifies dst
    ensures dst[..n] == Padded(Take(Text(src), n), n) && dst[n..] == old(dst[n..])
  {
    if !Terminated(src) {
      UnterminatedText(src);
    } else {
      TextEndsInside(src);
    }
    hide Text, Take, Padded;
    var i := 0;
    while i < n && src[i] != NUL
      invariant i <= n && i <= |Text(src)|
      invariant dst[..i] == src[..i] && dst[n..] == old(dst[n..])
    {
      TextGoesOn(src, i);
      dst[i] := src[i];
      assert dst[..i + 1] == dst[..i] + [src[i]] && src[..i + 1] == src[..i] + [src[i]];
      i := i + 1;
    }
    CopiedText(src, i, n);
    ghost var text := src[..i];
    while i < n
      invariant |text| <= i <= n
      invariant dst[..i] == Padded(text, i) && dst[n..] == old(dst[n..])
    {
      PaddedStep(text, i);
      dst[i] := NUL;
      assert dst[..i + 1] == dst[..i] + [NUL];
      i := i + 1;
    }
  }

  lemma UnterminatedText(s: seq<char>)
    requires !Terminated(s)
    ensures Text(s) == s
  {
    hide Text;
    TextIs(s, s);
  }

  lemma CopiedText(s: seq<char>, i: nat, n: nat)
    requires i <= n && i <= |Text(s)| && (i == n || (i < |s| && s[i] == NUL))
    ensures Take(Text(s), n) == s[..i] == Padded(s[..i], i)
  {
    hide Text;
    var t := Text(s);
    assert t == s[..|t|];
  }

  lemma PaddedStep(t: seq<char>, i: nat)
    requires |t| <= i
    ensures Padded(t, i + 1) == Padded(t, i) + [NUL]
  {
  }

  /** `t` followed by NULs up to length `n`. */
  function Padded(t: seq<char>, n: nat): (s: seq<char>)
    requires |t| <= n
    ensures |s| == n
  {
    t + seq(n - |t|, _ => NUL)
  }

  lemma TextOfPadded(t: seq<char>, n: nat, more: seq<char>)
    requires |t| <= n && NUL !in t && (|t| < n || more == [] || more[0] == NUL)
    ensures Text(Padded(t, n) + more) == t
  {
    TextIs(Padded(t, n) + more, t);
  }
}
