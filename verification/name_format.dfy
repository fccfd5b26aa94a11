/** Name formatting in the map view: `toTitleCase` rewrites every match of
    the global regular expression `\w\S*` (a word character followed by the
    rest of its run of non-space characters) to its first character in upper
    case and the rest in lower case; a neighbour's name first has its first
    comma replaced by a space. Case mapping covers the ASCII letters. */
module NameFormat {
  /** `\w`: an ASCII letter, digit or underscore. */
  predicate IsWord(c: char) {
    'a' <= c <= 'z' || 'A' <= c <= 'Z' || '0' <= c <= '9' || c == '_'
  }

  /** `\s` of ECMAScript: white space, line terminators and the byte order mark. */
  predicate IsSpace(c: char) {
    var n := c as int;
    (0x09 <= n <= 0x0D) || n == 0x20 || n == 0xA0 || n == 0x1680 || (0x2000 <= n <= 0x200A)
    || n == 0x2028 || n == 0x2029 || n == 0x202F || n == 0x205F || n == 0x3000 || n == 0xFEFF
  }

  /** `toUpperCase` on one character: a lower-case letter becomes its capital. */
  function Upper(c: char): (u: char)
    ensures IsWord(u) == IsWord(c) && IsSpace(u) == IsSpace(c)
    ensures !('a' <= u <= 'z')
  {
    if 'a' <= c <= 'z' then (c as int - 32) as char else c
  }

  /** `toLowerCase` on one character: a capital becomes its lower-case letter. */
  function Lower(c: char): (l: char)
    ensures IsWord(l) == IsWord(c) && IsSpace(l) == IsSpace(c)
    ensures !('A' <= l <= 'Z')
  {
    if 'A' <= c <= 'Z' then (c as int + 32) as char else c
  }

  /** `txt.toLowerCase()`. */
  function LowerAll(txt: string): (r: string)
    ensures |r| == |txt|
    ensures forall i :: 0 <= i < |txt| ==> r[i] == Lower(txt[i])
  {
    seq(|txt|, i requires 0 <= i < |txt| => Lower(txt[i]))
  }

  /** The replacement callback: `txt.charAt(0).toUpperCase() + txt.substr(1).toLowerCase()`. */
  function Capitalize(txt: string): (r: string)
    ensures |r| == |txt|
  {
    if txt == [] then [] else [Upper(txt[0])] + LowerAll(txt[1..])
  }

  /** Where the greedy `\S*` starting at i stops: the next white space, or the end. */
  function RunEnd(s: string, i: nat): (e: nat)
    requires i <= |s|
    ensures i <= e <= |s|
    ensures forall k :: i <= k < e ==> !IsSpace(s[k])
    ensures e < |s| ==> IsSpace(s[e])
    decreases |s| - i
  {
    if i == |s| || IsSpace(s[i]) then i else RunEnd(s, i + 1)
  }

  /** `str.replace` with the global expression `\w\S*` and the Capitalize
      callback: a match starts at a word character and runs to the next white
      space; the scan resumes after it. Characters where no match starts are
      copied. */
  function TitleCase(s: string): (r: string)
    ensures |r| == |s|
    decreases |s|
  {
    if s == [] then []
    else if IsWord(s[0]) then
      var e := RunEnd(s, 1);
      Capitalize(s[..e]) + TitleCase(s[e..])
    else [s[0]] + TitleCase(s[1..])
  }

  /** Position i lies in a token: it is not white space, and a word character
      occurs at or before it within its run of non-space characters. */
  predicate InToken(s: string, i: nat)
    requires i < |s|
    decreases i
  {
    !IsSpace(s[i]) && (IsWord(s[i]) || (i > 0 && InToken(s, i - 1)))
  }

  /** Position i is the first character of a token. */
  predicate TokenHead(s: string, i: nat)
    requires i < |s|
  {
    IsWord(s[i]) && (i == 0 || !InToken(s, i - 1))
  }

  /** The character title casing puts at position i, decided from the input alone. */
  function TitledAt(s: string, i: nat): char
    requires i < |s|
  {
    if TokenHead(s, i) then Upper(s[i]) else if InToken(s, i) then Lower(s[i]) else s[i]
  }

  /** Tokens are found the same way in a suffix that starts on a token boundary. */
  lemma {:induction false} InTokenSuffix(s: string, p: nat, i: nat)
    requires p <= i < |s|
    requires p == 0 || IsSpace(s[p]) || !InToken(s, p - 1)
    ensures InToken(s[p..], i - p) == InToken(s, i)
    decreases i
  {
    assert s[p..][i - p] == s[i];
    if i > p {
      InTokenSuffix(s, p, i - 1);
    } else if p == 0 {
      assert s[p..] == s;
    }
  }

  lemma TitledSuffix(s: string, p: nat, i: nat)
    requires p <= i < |s|
    requires p == 0 || IsSpace(s[p]) || !InToken(s, p - 1)
    ensures TitledAt(s[p..], i - p) == TitledAt(s, i)
  {
    InTokenSuffix(s, p, i);
    if i > p {
      InTokenSuffix(s, p, i - 1);
    }
  }

  /** A run that starts with a word character is one token, headed by its first character. */
  lemma {:induction false} TokenRun(s: string, e: nat, k: nat)
    requires 0 < e <= |s| && IsWord(s[0])
    requires forall j :: 1 <= j < e ==> !IsSpace(s[j])
    requires k < e
    ensures InToken(s, k)
    ensures TitledAt(s, k) == if k == 0 then Upper(s[k]) else Lower(s[k])
    decreases k
  {
    if k > 0 {
      TokenRun(s, e, k - 1);
    }
  }

  /** toTitleCase, position by position: token heads in upper case, the rest of
      each token in lower case, everything outside tokens unchanged. */
  lemma {:induction false} TitleCaseAt(s: string)
    ensures forall i :: 0 <= i < |s| ==> TitleCase(s)[i] == TitledAt(s, i)
    decreases |s|
  {
    if s != [] {
      var r := TitleCase(s);
      var p := if IsWord(s[0]) then RunEnd(s, 1) else 1;
      TitleCaseAt(s[p..]);
      assert r[p..] == TitleCase(s[p..]);
      forall i | 0 <= i < |s|
        ensures r[i] == TitledAt(s, i)
      {
        if i >= p {
          assert r[i] == r[p..][i - p];
          TitledSuffix(s, p, i);
        } else if IsWord(s[0]) {
          TokenRun(s, p, i);
        }
      }
    }
  }

  /** Two strings with the same white space and word characters at every position have the same tokens. */
  lemma {:induction false} SameTokens(s: string, t: string, i: nat)
    requires |s| == |t| && i < |s|
    requires forall j :: 0 <= j < |s| ==> IsSpace(t[j]) == IsSpace(s[j]) && IsWord(t[j]) == IsWord(s[j])
    ensures InToken(t, i) == InToken(s, i)
    decreases i
  {
    if i > 0 {
      SameTokens(s, t, i - 1);
    }
  }

  /** Position-wise title casing keeps every character's class, so the result
      has the same tokens and title casing fixes each of its characters. */
  lemma TitledFixed(s: string, r: string, i: nat)
    requires |r| == |s| && i < |s|
    requires forall j :: 0 <= j < |s| ==> r[j] == TitledAt(s, j)
    ensures TitledAt(r, i) == r[i]
  {
    forall j | 0 <= j < |s|
      ensures IsSpace(r[j]) == IsSpace(s[j]) && IsWord(r[j]) == IsWord(s[j])
    {
      assert r[j] == TitledAt(s, j);
    }
    SameTokens(s, r, i);
    if i > 0 {
      SameTokens(s, r, i - 1);
    }
  }

  /** Title casing an already title-cased string changes nothing. */
  lemma TitleCaseIdempotent(s: string)
    ensures TitleCase(TitleCase(s)) == TitleCase(s)
  {
    var r := TitleCase(s);
    TitleCaseAt(s);
    TitleCaseAt(r);
    forall i | 0 <= i < |r|
      ensures TitleCase(r)[i] == r[i]
    {
      TitledFixed(s, r, i);
    }
  }

  /** A worked instance: each word of a lower-case name gets its capital. */
  lemma TitleCaseExample()
    ensures TitleCase("jane doe") == "Jane Doe"
  {
    var s := "jane doe";
    assert RunEnd(s, 1) == 4;
    assert s[4..] == " doe";
    assert RunEnd(" doe"[1..], 1) == 3;
  }

  /** Position i holds the first occurrence of c in s. */
  predicate FirstAt(s: string, c: char, i: nat)
    requires i < |s|
  {
    s[i] == c && forall j :: 0 <= j < i ==> s[j] != c
  }

  /** `str.replace(from, to)` with a one-character pattern string: only the first occurrence changes. */
  function ReplaceFirst(s: string, from: char, to: char): (r: string)
    ensures |r| == |s|
    ensures forall i :: 0 <= i < |s| ==> r[i] == if FirstAt(s, from, i) then to else s[i]
  {
    if s == [] then []
    else if s[0] == from then [to] + s[1..]
    else
      var rest := ReplaceFirst(s[1..], from, to);
      FirstAtTail(s, from);
      [s[0]] + rest
  }

  /** Past a head that is not c, the first c of s is the first c of its tail. */
  lemma FirstAtTail(s: string, c: char)
    requires s != [] && s[0] != c
    ensures forall i :: 1 <= i < |s| ==> FirstAt(s[1..], c, i - 1) == FirstAt(s, c, i)
  {
    forall i | 1 <= i < |s|
      ensures FirstAt(s[1..], c, i - 1) == FirstAt(s, c, i)
    {
      assert forall j :: 0 <= j < i - 1 ==> s[1..][j] == s[j + 1];
    }
  }
}
