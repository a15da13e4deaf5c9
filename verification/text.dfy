/** The string operations the chat code uses: `trim`, splitting into words,
    `join`, `split('\n')`, `startsWith` and concatenation of many pieces. */
module Text {

  /** The whitespace that `String.prototype.trim` removes and `\s` matches
      (the ASCII part of it). */
  predicate IsSpace(c: char) {
    c == ' ' || '\t' <= c <= '\r'   // tab, line feed, vertical tab, form feed, carriage return
  }

  predicate AllSpace(s: string) {
    forall i :: 0 <= i < |s| ==> IsSpace(s[i])
  }

  predicate NoSpace(s: string) {
    forall i :: 0 <= i < |s| ==> !IsSpace(s[i])
  }

  /** `s` without its leading whitespace. */
  function TrimStart(s: string): (r: string)
    ensures |r| <= |s|
    ensures r != [] ==> !IsSpace(r[0])
  {
    if s != [] && IsSpace(s[0]) then TrimStart(s[1..]) else s
  }

  /** `s` without its trailing whitespace. */
  function TrimEnd(s: string): (r: string)
    ensures |r| <= |s|
    ensures r != [] ==> !IsSpace(r[|r| - 1])
  {
    if s != [] && IsSpace(s[|s| - 1]) then TrimEnd(s[..|s| - 1]) else s
  }

  /** `TrimStart` keeps a suffix and drops only whitespace before it. */
  lemma {:induction false} TrimStartSuffix(s: string)
    ensures var r := TrimStart(s);
      r == s[|s| - |r|..] && forall i :: 0 <= i < |s| - |r| ==> IsSpace(s[i])
  {
    if s != [] && IsSpace(s[0]) {
      TrimStartSuffix(s[1..]);
      forall i | 1 <= i < |s| ensures s[i] == s[1..][i - 1] {
      }
    }
  }

  /** `TrimEnd` keeps a prefix and drops only whitespace after it. */
  lemma {:induction false} TrimEndPrefix(s: string)
    ensures var r := TrimEnd(s);
      r == s[..|r|] && forall i :: |r| <= i < |s| ==> IsSpace(s[i])
  {
    if s != [] && IsSpace(s[|s| - 1]) {
      TrimEndPrefix(s[..|s| - 1]);
      forall i | 0 <= i < |s| - 1 ensures s[i] == s[..|s| - 1][i] {
      }
    }
  }

  /** The number of whitespace characters `trim` removes from the front of `s`. */
  function Lead(s: string): (n: nat)
    ensures n <= |s|
  {
    |s| - |TrimStart(s)|
  }

  /** `trim` gives the empty string exactly for blank text. */
  lemma TrimBlank(s: string)
    ensures TrimEnd(TrimStart(s)) == [] <==> AllSpace(s)
  {
    var t := TrimStart(s);
    TrimStartSuffix(s);
    TrimEndPrefix(t);
    if t != [] {
      assert t[0] == s[|s| - |t|];
      assert !AllSpace(s);
      assert TrimEnd(t) != [];
    } else {
      assert AllSpace(s);
    }
  }

  /** `s.trim()`: `s` without its surrounding whitespace. */
  function Trim(s: string): (r: string)
    ensures |r| <= |s|
    ensures r == [] || (!IsSpace(r[0]) && !IsSpace(r[|r| - 1]))
    ensures r == [] <==> AllSpace(s)
  {
    TrimBlank(s);
    TrimEndPrefix(TrimStart(s));
    TrimEnd(TrimStart(s))
  }

  /** `trim` keeps a middle slice of `s`. */
  lemma TrimSlice(s: string)
    ensures Lead(s) + |Trim(s)| <= |s| && Trim(s) == s[Lead(s)..Lead(s) + |Trim(s)|]
  {
    var t := TrimStart(s);
    var r := TrimEnd(t);
    var n := Lead(s);
    TrimStartSuffix(s);
    TrimEndPrefix(t);
    forall i | 0 <= i < |r| ensures r[i] == s[n + i] {
      assert r[i] == t[i];
    }
  }

  /** What `trim` drops on either side of that slice is whitespace. */
  lemma TrimSides(s: string)
    ensures forall i :: 0 <= i < Lead(s) ==> IsSpace(s[i])
    ensures forall i :: Lead(s) + |Trim(s)| <= i < |s| ==> IsSpace(s[i])
  {
    var t := TrimStart(s);
    var r := TrimEnd(t);
    var n := Lead(s);
    TrimStartSuffix(s);
    TrimEndPrefix(t);
    forall i | n + |r| <= i < |s| ensures IsSpace(s[i]) {
      assert s[i] == t[i - n];
    }
  }

  /** The length of the leading run of non-space characters of `s`. */
  function WordLen(s: string): (n: nat)
    ensures n <= |s|
    ensures NoSpace(s[..n])
    ensures n < |s| ==> IsSpace(s[n])
  {
    if s == [] || IsSpace(s[0]) then 0 else 1 + WordLen(s[1..])
  }

  /** The maximal runs of non-space characters of `s`, in order: what
      `s.trim().split(/\s+/)` returns, except that a blank `s` yields no word
      where JavaScript yields the one word `""` (the two join to the same string). */
  function Words(s: string): (ws: seq<string>)
    ensures forall w :: w in ws ==> w != [] && NoSpace(w)
    decreases |s|
  {
    var t := TrimStart(s);
    if t == [] then []
    else
      var n := WordLen(t);
      [t[..n]] + Words(t[n..])
  }

  /** `parts.join(sep)` */
  function Join(parts: seq<string>, sep: string): string {
    if parts == [] then ""
    else if |parts| == 1 then parts[0]
    else parts[0] + sep + Join(parts[1..], sep)
  }

  /** `s.split('\n')`: always at least one part, none containing a newline,
      and joining the parts with newlines gives back `s`. */
  function SplitLines(s: string): (parts: seq<string>)
    ensures |parts| >= 1
    ensures forall p :: p in parts ==> '\n' !in p
    ensures Join(parts, "\n") == s
  {
    if s == [] then [""]
    else
      var rest := SplitLines(s[1..]);
      if s[0] == '\n' then
        assert ([""] + rest)[1..] == rest;
        [""] + rest
      else
        JoinConsFirst(s[0], rest, "\n");
        assert s == [s[0]] + s[1..];
        [[s[0]] + rest[0]] + rest[1..]
  }

  /** `s.startsWith(prefix)` */
  predicate StartsWith(s: string, prefix: string) {
    |prefix| <= |s| && s[..|prefix|] == prefix
  }

  /** The concatenation of `parts`, left to right. */
  function Concat(parts: seq<string>): string {
    if parts == [] then "" else parts[0] + Concat(parts[1..])
  }

  lemma JoinConsFirst(c: char, parts: seq<string>, sep: string)
    requires parts != []
    ensures Join([[c] + parts[0]] + parts[1..], sep) == [c] + Join(parts, sep)
  {
    var q := [[c] + parts[0]] + parts[1..];
    assert q[1..] == parts[1..];
  }

  lemma {:induction false} JoinAppend(a: seq<string>, b: seq<string>, sep: string)
    requires a != [] && b != []
    ensures Join(a + b, sep) == Join(a, sep) + sep + Join(b, sep)
  {
    if |a| == 1 {
      assert (a + b)[1..] == b;
    } else {
      assert (a + b)[1..] == a[1..] + b;
      JoinAppend(a[1..], b, sep);
    }
  }

  lemma StartsWithAppend(a: string, b: string)
    ensures StartsWith(a + b, a)
  {
    assert (a + b)[..|a|] == a;
  }

  lemma {:induction false} ConcatAppend(a: seq<string>, x: string)
    ensures Concat(a + [x]) == Concat(a) + x
  {
    if a != [] {
      assert (a + [x])[1..] == a[1..] + [x];
      ConcatAppend(a[1..], x);
    }
  }

  lemma {:induction false} SplitNoNewline(a: string)
    requires '\n' !in a
    ensures SplitLines(a) == [a]
  {
    if a != [] {
      SplitNoNewline(a[1..]);
      assert a == [a[0]] + a[1..];
    }
  }

  lemma {:induction false} SplitAfterNewline(a: string, b: string)
    requires '\n' !in a
    ensures SplitLines(a + "\n" + b) == [a] + SplitLines(b)
  {
    if a == [] {
      assert (a + "\n" + b)[1..] == b;
    } else {
      assert (a + "\n" + b)[1..] == a[1..] + "\n" + b;
      SplitAfterNewline(a[1..], b);
      assert a == [a[0]] + a[1..];
    }
  }

  /** `split('\n')` undoes `join('\n')` on newline-free parts. */
  lemma {:induction false} SplitJoin(parts: seq<string>)
    requires |parts| >= 1
    requires forall p :: p in parts ==> '\n' !in p
    ensures SplitLines(Join(parts, "\n")) == parts
  {
    if |parts| == 1 {
      SplitNoNewline(parts[0]);
    } else {
      SplitJoin(parts[1..]);
      SplitAfterNewline(parts[0], Join(parts[1..], "\n"));
      assert parts == [parts[0]] + parts[1..];
    }
  }

  lemma {:induction false} WordLenOfWord(w: string, rest: string)
    requires NoSpace(w)
    requires rest == [] || IsSpace(rest[0])
    ensures WordLen(w + rest) == |w|
  {
    if w != [] {
      assert (w + rest)[1..] == w[1..] + rest;
      WordLenOfWord(w[1..], rest);
    } else {
      assert w + rest == rest;
    }
  }

  /** There are no words exactly when the text is all whitespace. */
  lemma WordsBlank(s: string)
    ensures Words(s) == [] <==> AllSpace(s)
  {
    var t := TrimStart(s);
    TrimStartSuffix(s);
    if t != [] {
      assert t[0] == s[|s| - |t|];
      assert !AllSpace(s);
      assert Words(s) != [];
    }
  }

  /** Leading whitespace separates no word. */
  lemma WordsSkipSpace(c: char, x: string)
    requires IsSpace(c)
    ensures Words([c] + x) == Words(x)
  {
    assert ([c] + x)[1..] == x;
    assert TrimStart([c] + x) == TrimStart(x);
  }

  /** A word followed by nothing or by whitespace is the first word. */
  lemma WordsCons(w: string, rest: string)
    requires w != [] && NoSpace(w)
    requires rest == [] || IsSpace(rest[0])
    ensures Words(w + rest) == [w] + Words(rest)
  {
    var s := w + rest;
    assert s[0] == w[0];
    assert TrimStart(s) == s;
    WordLenOfWord(w, rest);
    assert s[..|w|] == w;
    assert s[|w|..] == rest;
  }

  /** A word, one space, then anything: the word comes first. */
  lemma WordsAfterWord(w: string, j: string)
    requires w != [] && NoSpace(w)
    ensures Words(w + " " + j) == [w] + Words(j)
  {
    assert w + " " + j == w + ([' '] + j);
    WordsCons(w, [' '] + j);
    WordsSkipSpace(' ', j);
  }

  /** A single word is its own word list. */
  lemma WordsOfWord(w: string)
    requires w != [] && NoSpace(w)
    ensures Words(w) == [w]
  {
    assert !IsSpace(w[0]);
    assert TrimStart(w) == w;
    WordLenOfWord(w, []);
    assert w + [] == w;
    assert w[|w|..] == [];
    assert TrimStart([]) == [];
  }

  /** Splitting into words undoes joining words with single spaces. */
  lemma {:induction false} WordsOfJoin(ws: seq<string>)
    requires forall w :: w in ws ==> w != [] && NoSpace(w)
    ensures Words(Join(ws, " ")) == ws
  {
    if |ws| == 1 {
      assert ws[0] in ws;
      WordsOfWord(ws[0]);
      assert ws == [ws[0]];
    } else if ws != [] {
      assert ws[0] in ws;
      assert forall v :: v in ws[1..] ==> v in ws;
      WordsOfJoin(ws[1..]);
      WordsAfterWord(ws[0], Join(ws[1..], " "));
      assert ws == [ws[0]] + ws[1..];
    }
  }

  lemma JoinCons(w: string, ws: seq<string>, sep: string)
    requires ws != []
    ensures Join([w] + ws, sep) == w + sep + Join(ws, sep)
  {
    assert ([w] + ws)[1..] == ws;
  }

  /** Re-joining the words of `s` with single spaces never lengthens it. */
  lemma {:induction false} JoinWordsShorter(s: string)
    ensures |Join(Words(s), " ")| <= |s|
    decreases |s|
  {
    var t := TrimStart(s);
    if t != [] {
      var n := WordLen(t);
      var rest := t[n..];
      if Words(rest) != [] {
        var tail := rest[1..];
        JoinWordsShorter(tail);
        JoinWordsAfterSpace(t[..n], rest);
      }
    }
  }

  lemma JoinWordsAfterSpace(w: string, rest: string)
    requires rest != [] && IsSpace(rest[0]) && Words(rest) != []
    requires |Join(Words(rest[1..]), " ")| <= |rest[1..]|
    ensures |Join([w] + Words(rest), " ")| <= |w| + |rest|
  {
    assert rest == [rest[0]] + rest[1..];
    WordsSkipSpace(rest[0], rest[1..]);
    JoinCons(w, Words(rest), " ");
  }

  /** A blank-free single-spaced join has no surrounding whitespace. */
  lemma {:induction false} JoinOfWordsTrimmed(ws: seq<string>)
    requires forall w :: w in ws ==> w != [] && NoSpace(w)
    ensures Trim(Join(ws, " ")) == Join(ws, " ")
  {
    var s := Join(ws, " ");
    if ws != [] {
      JoinEnds(ws);
      assert TrimStart(s) == s;
      assert TrimEnd(s) == s;
    }
  }

  lemma {:induction false} JoinEnds(ws: seq<string>)
    requires ws != []
    requires forall w :: w in ws ==> w != [] && NoSpace(w)
    ensures Join(ws, " ") != [] && !IsSpace(Join(ws, " ")[0]) && !IsSpace(Join(ws, " ")[|Join(ws, " ")| - 1])
  {
    assert ws[0] in ws;
    if |ws| > 1 {
      assert forall v :: v in ws[1..] ==> v in ws;
      JoinEnds(ws[1..]);
      var j := Join(ws[1..], " ");
      assert (ws[0] + " " + j)[0] == ws[0][0];
      assert (ws[0] + " " + j)[|ws[0] + " " + j| - 1] == j[|j| - 1];
    }
  }
}
