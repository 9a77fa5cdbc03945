// Python string operations the recognition code relies on: str.lower,
// str.endswith, str.strip, str.replace and os.path.splitext on a bare
// file name.

module Text {

  /** The case mapping of str.lower() on ASCII letters. */
  function LowerChar(c: char): char
  {
    if 'A' <= c <= 'Z' then (c as int + 32) as char else c
  }

  function Lower(s: string): (r: string)
    ensures |r| == |s|
    ensures forall i :: 0 <= i < |s| ==> r[i] == LowerChar(s[i])
  {
    seq(|s|, i requires 0 <= i < |s| => LowerChar(s[i]))
  }

  /** str.endswith(suffix), compared from the last character backwards. */
  predicate EndsWith(s: string, suffix: string)
    decreases |suffix|
  {
    |suffix| == 0
    || (|s| > 0 && s[|s| - 1] == suffix[|suffix| - 1] && EndsWith(s[..|s| - 1], suffix[..|suffix| - 1]))
  }

  /** EndsWith holds exactly when the suffix is the tail slice of s. */
  lemma {:induction false} EndsWithTail(s: string, suffix: string)
    ensures EndsWith(s, suffix) <==> |suffix| <= |s| && s[|s| - |suffix|..] == suffix
    decreases |suffix|
  {
    if |suffix| > 0 && |s| > 0 {
      var s', t' := s[..|s| - 1], suffix[..|suffix| - 1];
      EndsWithTail(s', t');
      if |suffix| <= |s| {
        assert s[|s| - |suffix|..] == s'[|s'| - |t'|..] + [s[|s| - 1]];
        assert suffix == t' + [suffix[|suffix| - 1]];
      }
    }
  }

  /** str.isspace() of one character: the characters str.strip() removes. */
  predicate IsSpace(c: char)
  {
    var n := c as int;
    (9 <= n <= 13) || (28 <= n <= 32) || n == 0x85 || n == 0xA0 || n == 0x1680
    || (0x2000 <= n <= 0x200A) || n == 0x2028 || n == 0x2029 || n == 0x202F
    || n == 0x205F || n == 0x3000
  }

  /** The first index at or after i that is not whitespace, or |s|. */
  function SkipSpaces(s: string, i: nat): (j: nat)
    requires i <= |s|
    ensures i <= j <= |s|
    ensures forall k :: i <= k < j ==> IsSpace(s[k])
    ensures j < |s| ==> !IsSpace(s[j])
    decreases |s| - i
  {
    if i < |s| && IsSpace(s[i]) then SkipSpaces(s, i + 1) else i
  }

  /** The end of s[lo..hi] once its trailing whitespace is dropped. */
  function SkipSpacesBack(s: string, lo: nat, hi: nat): (e: nat)
    requires lo <= hi <= |s|
    ensures lo <= e <= hi
    ensures forall k :: e <= k < hi ==> IsSpace(s[k])
    ensures lo < e ==> !IsSpace(s[e - 1])
    decreases hi
  {
    if lo < hi && IsSpace(s[hi - 1]) then SkipSpacesBack(s, lo, hi - 1) else hi
  }

  /** str.strip(): the slice of s between its leading and its trailing
      whitespace; empty exactly when s is all whitespace. */
  function Strip(s: string): (r: string)
    ensures var lead := SkipSpaces(s, 0);
      && lead + |r| <= |s|
      && r == s[lead..lead + |r|]
      && (forall i :: 0 <= i < lead ==> IsSpace(s[i]))
      && (forall i :: lead + |r| <= i < |s| ==> IsSpace(s[i]))
    ensures r != [] ==> !IsSpace(r[0]) && !IsSpace(r[|r| - 1])
    ensures r == [] <==> forall i :: 0 <= i < |s| ==> IsSpace(s[i])
  {
    var lead := SkipSpaces(s, 0);
    var e := SkipSpacesBack(s, lead, |s|);
    StripEnds(s, lead, e);
    StripEmpty(s, lead, e);
    s[lead..e]
  }

  lemma StripEnds(s: string, lead: nat, e: nat)
    requires lead == SkipSpaces(s, 0) && e == SkipSpacesBack(s, lead, |s|)
    ensures lead < e ==> !IsSpace(s[lead..e][0]) && !IsSpace(s[lead..e][e - lead - 1])
  {
    if lead < e {
      assert s[lead..e][0] == s[lead];
      assert s[lead..e][e - lead - 1] == s[e - 1];
    }
  }

  lemma StripEmpty(s: string, lead: nat, e: nat)
    requires lead == SkipSpaces(s, 0) && e == SkipSpacesBack(s, lead, |s|)
    ensures e == lead <==> forall i :: 0 <= i < |s| ==> IsSpace(s[i])
  {
    if e != lead {
      assert !IsSpace(s[e - 1]);
    }
  }

  /** str.rfind(c): the last index of c in s, or -1. */
  function LastIndexOf(s: string, c: char): (k: int)
    ensures -1 <= k < |s|
    ensures k >= 0 ==> s[k] == c
    ensures forall i :: k < i < |s| ==> s[i] != c
    decreases |s|
  {
    if |s| == 0 then -1
    else if s[|s| - 1] == c then |s| - 1
    else LastIndexOf(s[..|s| - 1], c)
  }

  /** os.path.splitext(name)[0] for a name without directory separators:
      the text before the last dot, unless only dots precede that dot. */
  function SplitExtRoot(name: string): (root: string)
    ensures |root| <= |name| && root == name[..|root|]
  {
    var dot := LastIndexOf(name, '.');
    if dot > 0 && exists i :: 0 <= i < dot && name[i] != '.' then name[..dot] else name
  }

  /** A name whose last dot starts an extension of length n loses exactly
      that extension, unless everything before the dot is dots. */
  lemma RootDropsExtension(name: string, n: nat)
    requires 1 <= n <= |name|
    requires name[|name| - n] == '.'
    requires forall i :: |name| - n < i < |name| ==> name[i] != '.'
    ensures (exists i :: 0 <= i < |name| - n && name[i] != '.') ==> SplitExtRoot(name) == name[..|name| - n]
    ensures (forall i :: 0 <= i < |name| - n ==> name[i] == '.') ==> SplitExtRoot(name) == name
  {
  }

  /** str.replace(' ', '_'). */
  function ReplaceSpaces(s: string): (r: string)
    ensures |r| == |s|
    ensures forall i :: 0 <= i < |s| ==> r[i] == if s[i] == ' ' then '_' else s[i]
  {
    seq(|s|, i requires 0 <= i < |s| => if s[i] == ' ' then '_' else s[i])
  }
}
