/** The pieces of Go's `strings` and `bytes` packages that the handlers rely
    on, over ASCII: white space is the six ASCII space characters and case
    mapping touches only 'A'..'Z'. One char of a Dafny string stands for one
    byte of a Go string. */
module Text {

  /** unicode.IsSpace restricted to ASCII: space, \t, \n, \v, \f, \r. */
  predicate IsSpace(c: char) {
    c == ' ' || c == '\t' || c == '\n' || c == '\r' || c == '\U{000B}' || c == '\U{000C}'
  }

  predicate AllSpace(s: string) {
    forall i :: 0 <= i < |s| ==> IsSpace(s[i])
  }

  /** `sub` occurs in `s` starting at index `i`. */
  ghost predicate OccursAt(s: string, sub: string, i: int) {
    0 <= i && i + |sub| <= |s| && s[i..i + |sub|] == sub
  }

  ghost predicate IsSubstring(sub: string, s: string) {
    exists i :: OccursAt(s, sub, i)
  }

  /** No white space at either end. */
  predicate IsTrimmed(s: string) {
    s == [] || (!IsSpace(s[0]) && !IsSpace(s[|s| - 1]))
  }

  /** strings.TrimSpace / bytes.TrimSpace. */
  function TrimSpace(s: string): (r: string)
    ensures IsTrimmed(r)
    ensures |r| <= |s|
  {
    if s != [] && IsSpace(s[0]) then TrimSpace(s[1..])
    else if s != [] && IsSpace(s[|s| - 1]) then TrimSpace(s[..|s| - 1])
    else s
  }

  /** `r` sits in `s` at offset `a`, with only white space around it. */
  ghost predicate Margins(s: string, r: string, a: int) {
    0 <= a && a + |r| <= |s| && s[a..a + |r|] == r
    && AllSpace(s[..a]) && AllSpace(s[a + |r|..])
  }

  lemma MarginsGrowLeft(s: string, r: string, a: int)
    requires s != [] && IsSpace(s[0]) && Margins(s[1..], r, a)
    ensures Margins(s, r, a + 1)
  {
    assert s[a + 1..a + 1 + |r|] == s[1..][a..a + |r|];
    assert s[..a + 1] == [s[0]] + s[1..][..a];
    assert s[a + 1 + |r|..] == s[1..][a + |r|..];
  }

  lemma MarginsGrowRight(s: string, r: string, a: int)
    requires s != [] && IsSpace(s[|s| - 1]) && Margins(s[..|s| - 1], r, a)
    ensures Margins(s, r, a)
  {
    var t := s[..|s| - 1];
    assert s[a..a + |r|] == t[a..a + |r|];
    assert s[..a] == t[..a];
    assert s[a + |r|..] == t[a + |r|..] + [s[|s| - 1]];
  }

  /** The trimmed string is the part of `s` between two all-space margins. */
  lemma {:induction false} TrimSpaceIsMiddle(s: string)
    ensures exists a :: Margins(s, TrimSpace(s), a)
  {
    var r := TrimSpace(s);
    if s != [] && IsSpace(s[0]) {
      TrimSpaceIsMiddle(s[1..]);
      var a :| Margins(s[1..], r, a);
      MarginsGrowLeft(s, r, a);
    } else if s != [] && IsSpace(s[|s| - 1]) {
      TrimSpaceIsMiddle(s[..|s| - 1]);
      var a :| Margins(s[..|s| - 1], r, a);
      MarginsGrowRight(s, r, a);
    } else {
      assert Margins(s, r, 0);
    }
  }

  lemma TrimSpaceIsSubstring(s: string)
    ensures IsSubstring(TrimSpace(s), s)
  {
    TrimSpaceIsMiddle(s);
    var r := TrimSpace(s);
    var a :| Margins(s, r, a);
    assert OccursAt(s, r, a);
  }

  /** Trimming a string that has no white space at its ends changes nothing. */
  lemma TrimSpaceOfTrimmed(s: string)
    requires IsTrimmed(s)
    ensures TrimSpace(s) == s
  {
  }

  /** A leading run of non-space characters survives trimming. */
  lemma {:induction false} TrimSpaceKeepsHead(s: string, k: int)
    requires 0 < k <= |s| && forall i :: 0 <= i < k ==> !IsSpace(s[i])
    ensures k <= |TrimSpace(s)| && TrimSpace(s)[..k] == s[..k]
  {
    if IsSpace(s[|s| - 1]) {
      TrimSpaceKeepsHead(s[..|s| - 1], k);
    }
  }

  predicate IsUpper(c: char) {
    'A' <= c <= 'Z'
  }

  /** unicode.ToLower restricted to ASCII. */
  function LowerChar(c: char): char {
    if IsUpper(c) then (c as int + 32) as char else c
  }

  /** strings.ToLower over ASCII. */
  function ToLower(s: string): (r: string)
    ensures |r| == |s|
  {
    seq(|s|, i requires 0 <= i < |s| => LowerChar(s[i]))
  }

  predicate IsLower(s: string) {
    forall i :: 0 <= i < |s| ==> !IsUpper(s[i])
  }

  lemma ToLowerProperties(s: string)
    ensures IsLower(ToLower(s))
    ensures ToLower(ToLower(s)) == ToLower(s)
    ensures forall i :: 0 <= i < |s| ==> (IsSpace(ToLower(s)[i]) <==> IsSpace(s[i]))
  {
  }

  lemma ToLowerOfLower(s: string)
    requires IsLower(s)
    ensures ToLower(s) == s
  {
  }

  function HasPrefix(s: string, prefix: string): bool {
    |prefix| <= |s| && s[..|prefix|] == prefix
  }

  /** A string starts with a + b iff it starts with a and the rest starts
      with b. */
  lemma HasPrefixConcat(s: string, a: string, b: string)
    ensures HasPrefix(s, a + b) <==> HasPrefix(s, a) && HasPrefix(s[|a|..], b)
  {
    if HasPrefix(s, a + b) {
      assert s[..|a|] == (a + b)[..|a|] == a;
      assert s[|a|..][..|b|] == (a + b)[|a|..] == b;
    }
    if HasPrefix(s, a) && HasPrefix(s[|a|..], b) {
      assert s[..|a| + |b|] == s[..|a|] + s[|a|..][..|b|];
    }
  }

  /** strings.TrimPrefix: removes one leading copy of `prefix`, if present. */
  function TrimPrefix(s: string, prefix: string): (r: string)
    ensures HasPrefix(s, prefix) ==> prefix + r == s
    ensures !HasPrefix(s, prefix) ==> r == s
  {
    if HasPrefix(s, prefix) then s[|prefix|..] else s
  }

  /** strings.Index: the first index at which `sub` occurs, or -1. */
  function IndexOf(s: string, sub: string): (r: int)
    ensures r == -1 || 0 <= r <= |s| - |sub|
    ensures r >= 0 ==> OccursAt(s, sub, r)
    ensures forall i :: 0 <= i < (if r < 0 then |s| + 1 else r) ==> !OccursAt(s, sub, i)
  {
    if |s| < |sub| then -1
    else if s[..|sub|] == sub then 0
    else
      var k := IndexOf(s[1..], sub);
      assert forall i :: 1 <= i ==> (OccursAt(s, sub, i) <==> OccursAt(s[1..], sub, i - 1));
      if k < 0 then -1 else k + 1
  }

  /** strings.Contains. */
  function Contains(s: string, sub: string): (b: bool)
    ensures b <==> IsSubstring(sub, s)
  {
    var k := IndexOf(s, sub);
    assert k >= 0 ==> OccursAt(s, sub, k);
    k >= 0
  }

  /** strings.Split with a non-empty separator. */
  function Split(s: string, sep: string): (parts: seq<string>)
    requires sep != []
    ensures |parts| >= 1
    ensures forall p :: p in parts ==> !IsSubstring(sep, p)
    decreases |s|
  {
    var k := IndexOf(s, sep);
    if k < 0 then [s]
    else
      assert forall i :: OccursAt(s[..k], sep, i) ==> OccursAt(s, sep, i);
      [s[..k]] + Split(s[k + |sep|..], sep)
  }

  /** strings.Join. */
  function Join(parts: seq<string>, sep: string): string {
    if parts == [] then ""
    else if |parts| == 1 then parts[0]
    else parts[0] + sep + Join(parts[1..], sep)
  }

  /** Joining what Split produced gives back the original string. */
  lemma {:induction false} JoinSplit(s: string, sep: string)
    requires sep != []
    ensures Join(Split(s, sep), sep) == s
    decreases |s|
  {
    var k := IndexOf(s, sep);
    if k >= 0 {
      var rest := s[k + |sep|..];
      var tail := Split(rest, sep);
      JoinSplit(rest, sep);
      JoinCons(s[..k], tail, sep);
      assert s == s[..k] + sep + rest;
    }
  }

  /** With a one-character separator that no part contains, Split undoes
      Join. */
  lemma {:induction false} SplitJoin(parts: seq<string>, c: char)
    requires parts != [] && forall p :: p in parts ==> c !in p
    ensures Split(Join(parts, [c]), [c]) == parts
  {
    var s := Join(parts, [c]);
    if |parts| == 1 {
      assert parts[0] in parts;
      forall i | 0 <= i < |s|
        ensures !OccursAt(s, [c], i)
      {
        assert s[i..i + 1] == [s[i]];
        assert s[i] in parts[0];
      }
    } else {
      var first := parts[0];
      var rest := Join(parts[1..], [c]);
      assert first in parts;
      assert s == first + [c] + rest;
      assert OccursAt(s, [c], |first|);
      forall i | 0 <= i < |first|
        ensures !OccursAt(s, [c], i)
      {
        assert s[i..i + 1] == [first[i]];
        assert first[i] in first;
      }
      var k := IndexOf(s, [c]);
      assert k == |first|;
      assert s[..k] == first && s[k + 1..] == rest;
      assert forall p :: p in parts[1..] ==> p in parts;
      SplitJoin(parts[1..], c);
    }
  }

  lemma JoinCons(x: string, parts: seq<string>, sep: string)
    requires parts != []
    ensures Join([x] + parts, sep) == x + sep + Join(parts, sep)
  {
    assert ([x] + parts)[1..] == parts;
  }

  /** A join breaks at any separator position into the joins of both sides. */
  lemma {:induction false} JoinAt(parts: seq<string>, sep: string, b: int)
    requires 0 < b < |parts|
    ensures Join(parts, sep) == Join(parts[..b], sep) + sep + Join(parts[b..], sep)
    decreases b
  {
    if b > 1 {
      JoinAt(parts[1..], sep, b - 1);
      assert parts[1..][..b - 1] == parts[1..b];
      assert parts[1..][b - 1..] == parts[b..];
      assert parts[..b][1..] == parts[1..b];
    }
  }

  /** The join of a contiguous run of parts is a substring of the whole join. */
  lemma JoinSliceIsSubstring(parts: seq<string>, sep: string, a: int, b: int)
    requires 0 <= a <= b <= |parts|
    ensures IsSubstring(Join(parts[a..b], sep), Join(parts, sep))
  {
    var whole := Join(parts, sep);
    var mid := Join(parts[a..b], sep);
    if a == b {
      assert OccursAt(whole, mid, 0);
    } else {
      // whole == left + mid + right
      var left := if a == 0 then "" else Join(parts[..a], sep) + sep;
      var right := if b == |parts| then "" else sep + Join(parts[b..], sep);
      var tail := parts[a..];
      if a > 0 {
        JoinAt(parts, sep, a);
      }
      assert whole == left + Join(tail, sep);
      if b < |parts| {
        JoinAt(tail, sep, b - a);
        assert tail[..b - a] == parts[a..b];
        assert tail[b - a..] == parts[b..];
      } else {
        assert tail == parts[a..b];
      }
      assert Join(tail, sep) == mid + right;
      assert whole == left + mid + right;
      assert OccursAt(whole, mid, |left|);
    }
  }

  lemma SubstringTransitive(a: string, b: string, c: string)
    requires IsSubstring(a, b) && IsSubstring(b, c)
    ensures IsSubstring(a, c)
  {
    var i :| OccursAt(b, a, i);
    var j :| OccursAt(c, b, j);
    forall t | 0 <= t < |a|
      ensures c[j + i + t] == a[t]
    {
      assert a[t] == b[i + t];
      assert b[i + t] == c[j + i + t];
    }
    assert c[j + i..j + i + |a|] == a;
    assert OccursAt(c, a, j + i);
  }

  /** Joining parts that avoid a word, with a separator that shares no
      character with the word, gives a string that avoids the word too. */
  lemma {:induction false} JoinAvoidsWord(parts: seq<string>, sep: string, word: string)
    requires word != [] && sep != []
    requires forall i, j :: 0 <= i < |sep| && 0 <= j < |word| ==> sep[i] != word[j]
    requires forall p :: p in parts ==> !IsSubstring(word, p)
    ensures !IsSubstring(word, Join(parts, sep))
  {
    if |parts| == 1 {
      assert parts[0] in parts;
    } else if |parts| >= 2 {
      var first := parts[0];
      var rest := Join(parts[1..], sep);
      var s := Join(parts, sep);
      assert first in parts;
      assert s == first + sep + rest;
      JoinAvoidsWord(parts[1..], sep, word);
      forall k
        ensures !OccursAt(s, word, k)
      {
        if k < 0 || k + |word| > |s| {
        } else if k + |word| <= |first| {
          assert s[k..k + |word|] == first[k..k + |word|];
          assert !OccursAt(first, word, k);
        } else if k >= |first| + |sep| {
          var k' := k - |first| - |sep|;
          assert s[k..k + |word|] == rest[k'..k' + |word|];
          assert !OccursAt(rest, word, k');
        } else {
          // some character of the window is a separator character
          var m := if k <= |first| then |first| else k;
          assert s[m] == (first + sep)[m] == sep[m - |first|];
          assert s[k..k + |word|][m - k] != word[m - k];
        }
      }
    }
  }

  /** A prefix of a string that avoids a word avoids it too. */
  lemma PrefixAvoidsWord(s: string, n: int, word: string)
    requires 0 <= n <= |s| && !IsSubstring(word, s)
    ensures !IsSubstring(word, s[..n])
  {
    forall k | OccursAt(s[..n], word, k)
      ensures OccursAt(s, word, k)
    {
      assert s[..n][k..k + |word|] == s[k..k + |word|];
    }
  }

  /** strings.TrimRight(s, cutset): drops trailing characters that are in `cutset`. */
  function TrimRightSet(s: string, cutset: set<char>): (r: string)
    ensures |r| <= |s| && r == s[..|r|]
    ensures r == [] || r[|r| - 1] !in cutset
    ensures forall i :: |r| <= i < |s| ==> s[i] in cutset
  {
    if s != [] && s[|s| - 1] in cutset then TrimRightSet(s[..|s| - 1], cutset) else s
  }

  /** The length of the leading run of non-space characters. */
  function WordLength(s: string): (n: nat)
    ensures n <= |s|
    ensures forall i :: 0 <= i < n ==> !IsSpace(s[i])
    ensures n == |s| || IsSpace(s[n])
  {
    if s == [] || IsSpace(s[0]) then 0 else 1 + WordLength(s[1..])
  }

  /** A field of strings.Fields: non-empty, no white space. */
  predicate IsField(f: string) {
    f != [] && forall i :: 0 <= i < |f| ==> !IsSpace(f[i])
  }

  /** strings.Fields: the maximal runs of non-space characters, in order. */
  function Fields(s: string): (fs: seq<string>)
    ensures forall i :: 0 <= i < |fs| ==> IsField(fs[i])
    ensures fs == [] <==> AllSpace(s)
    decreases |s|
  {
    if s == [] then []
    else if IsSpace(s[0]) then
      assert AllSpace(s) <==> AllSpace(s[1..]) by {
        assert forall i :: 0 < i < |s| ==> s[i] == s[1..][i - 1];
      }
      Fields(s[1..])
    else
      var n := WordLength(s);
      [s[..n]] + Fields(s[n..])
  }

  /** Leading white space contributes no field. */
  lemma {:induction false} FieldsSkipsSpace(sp: string, s: string)
    requires AllSpace(sp)
    ensures Fields(sp + s) == Fields(s)
    decreases |sp|
  {
    if sp == [] {
      assert sp + s == s;
    } else {
      assert (sp + s)[1..] == sp[1..] + s;
      FieldsSkipsSpace(sp[1..], s);
    }
  }

  /** A word followed by white space or by nothing is taken whole as the
      next field. */
  lemma FieldsTakesWord(w: string, s: string)
    requires IsField(w) && (s == [] || IsSpace(s[0]))
    ensures Fields(w + s) == [w] + Fields(s)
  {
    var t := w + s;
    var n := WordLength(t);
    assert forall i :: 0 <= i < |w| ==> t[i] == w[i];
    assert s != [] ==> t[|w|] == s[0];
    assert n == |w|;
    assert t[..n] == w && t[n..] == s;
  }

  /** Fields undoes a single-space join of fields. */
  lemma {:induction false} FieldsOfJoin(ws: seq<string>)
    requires forall i :: 0 <= i < |ws| ==> IsField(ws[i])
    ensures Fields(Join(ws, " ")) == ws
  {
    if |ws| == 1 {
      FieldsTakesWord(ws[0], "");
      assert ws[0] + "" == ws[0];
    } else if |ws| > 1 {
      FieldsOfJoin(ws[1..]);
      FieldsOfSpacedWord(ws[0], Join(ws[1..], " "));
      assert ws == [ws[0]] + ws[1..];
    }
  }

  /** A field, a space and the rest: the field comes first. */
  lemma FieldsOfSpacedWord(w: string, rest: string)
    requires IsField(w)
    ensures Fields(w + " " + rest) == [w] + Fields(rest)
  {
    assert w + " " + rest == w + (" " + rest);
    FieldsTakesWord(w, " " + rest);
    FieldsSkipsSpace(" ", rest);
  }

  /** The characters of `s` that are not white space, in order. */
  function NonSpace(s: string): string {
    if s == [] then [] else (if IsSpace(s[0]) then [] else [s[0]]) + NonSpace(s[1..])
  }

  /** The fields, one after another. */
  function Concat(fs: seq<string>): string {
    if fs == [] then [] else fs[0] + Concat(fs[1..])
  }

  lemma {:induction false} NonSpaceAppend(a: string, b: string)
    ensures NonSpace(a + b) == NonSpace(a) + NonSpace(b)
    decreases |a|
  {
    if a == [] {
      assert a + b == b;
    } else {
      assert (a + b)[1..] == a[1..] + b;
      NonSpaceAppend(a[1..], b);
    }
  }

  lemma {:induction false} NonSpaceOfWord(w: string)
    requires forall i :: 0 <= i < |w| ==> !IsSpace(w[i])
    ensures NonSpace(w) == w
  {
    if w != [] {
      NonSpaceOfWord(w[1..]);
      assert w == [w[0]] + w[1..];
    }
  }

  /** The fields, put back together, are the non-space characters of `s` in
      their original order: nothing is dropped, added or reordered. */
  lemma {:induction false} FieldsKeepNonSpace(s: string)
    ensures Concat(Fields(s)) == NonSpace(s)
    decreases |s|
  {
    if s != [] {
      if IsSpace(s[0]) {
        FieldsKeepNonSpace(s[1..]);
      } else {
        var n := WordLength(s);
        FieldsKeepNonSpace(s[n..]);
        assert s == s[..n] + s[n..];
        NonSpaceAppend(s[..n], s[n..]);
        NonSpaceOfWord(s[..n]);
        var fs := Fields(s);
        assert fs == [s[..n]] + Fields(s[n..]);
        assert fs[1..] == Fields(s[n..]);
      }
    }
  }

  /** ToLower applied to every element. */
  function LowerAll(xs: seq<string>): (ys: seq<string>)
    ensures |ys| == |xs|
  {
    seq(|xs|, i requires 0 <= i < |xs| => ToLower(xs[i]))
  }

  /** Lower-cased fields are still fields, and are lower case. */
  lemma LowerFieldsAreFields(fs: seq<string>)
    requires forall i :: 0 <= i < |fs| ==> IsField(fs[i])
    ensures forall i :: 0 <= i < |LowerAll(fs)| ==>
      IsField(LowerAll(fs)[i]) && IsLower(LowerAll(fs)[i])
  {
    forall i | 0 <= i < |fs|
      ensures IsField(LowerAll(fs)[i]) && IsLower(LowerAll(fs)[i])
    {
      ToLowerProperties(fs[i]);
    }
  }

  /** The loop `for i, t := range tags { tags[i] = strings.ToLower(t) }`
      that both the API and the web handlers run on their tag slices. */
  method LowerEach(tags: array<string>)
    modifies tags
    ensures tags[..] == LowerAll(old(tags[..]))
  {
    var i := 0;
    while i < tags.Length
      invariant 0 <= i <= tags.Length
      invariant forall k :: 0 <= k < i ==> tags[k] == ToLower(old(tags[k]))
      invariant forall k :: i <= k < tags.Length ==> tags[k] == old(tags[k])
    {
      tags[i] := ToLower(tags[i]);
      i := i + 1;
    }
  }

  /** `strings.Fields(s)` followed by LowerEach on a fresh slice. */
  method LowerFields(s: string) returns (tags: seq<string>)
    ensures tags == LowerAll(Fields(s))
    ensures forall i :: 0 <= i < |tags| ==> IsField(tags[i]) && IsLower(tags[i])
    ensures tags == [] <==> AllSpace(s)
  {
    var fs := Fields(s);
    var a := new string[|fs|](i requires 0 <= i < |fs| => fs[i]);
    LowerEach(a);
    tags := a[..];
    LowerFieldsAreFields(fs);
  }
}
