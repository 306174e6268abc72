/** String primitives behind the utterance normalisation and title matching:
    ASCII lowercasing, character deletion (`str.replace(c, "")`), whitespace
    splitting (`str.split()`), and substring search (`word in title`). */
module Text {

  /** Python's `str.isspace`, i.e. the characters `str.split()` with no argument breaks on. */
  predicate IsSpace(c: char)
  {
    var n := c as int;
    || n == 0x20 || 0x09 <= n <= 0x0D || 0x1C <= n <= 0x1F || n == 0x85 || n == 0xA0
    || n == 0x1680 || 0x2000 <= n <= 0x200A || n == 0x2028 || n == 0x2029
    || n == 0x202F || n == 0x205F || n == 0x3000
  }

  predicate IsUpper(c: char)
  {
    'A' <= c <= 'Z'
  }

  predicate IsPunct(c: char)
  {
    c == ',' || c == '.' || c == ':'
  }

  // ---------------------------------------------------------------------------
  // Lowercasing and punctuation removal
  // ---------------------------------------------------------------------------

  /** `str.lower()`, restricted to the ASCII letters. */
  function LowerChar(c: char): (d: char)
    ensures !IsUpper(d)
    ensures !IsUpper(c) ==> d == c
    ensures IsUpper(c) ==> 'a' <= d <= 'z' && d as int - c as int == 32
  {
    if IsUpper(c) then (c as int + 32) as char else c
  }

  function Lower(s: string): (r: string)
    ensures |r| == |s|
    ensures forall i :: 0 <= i < |s| ==> r[i] == LowerChar(s[i])
    ensures forall c :: c in r ==> !IsUpper(c)
    ensures forall i :: 0 <= i < |s| ==> (r[i] == s[i] <==> !IsUpper(s[i]))
  {
    seq(|s|, i requires 0 <= i < |s| => LowerChar(s[i]))
  }

  /** `s.replace(c, "")`: every occurrence of `c` deleted, everything else kept in order. */
  function Drop(s: string, c: char): (r: string)
    ensures |r| <= |s|
    ensures c !in r
    ensures forall x :: x in r <==> x in s && x != c
    ensures c !in s ==> r == s
  {
    if |s| == 0 then "" else (if s[0] == c then "" else [s[0]]) + Drop(s[1..], c)
  }

  /** The utterance normalisation of the movie macro:
      `.lower().replace(",", "").replace(".", "").replace(":", "")`. */
  function Normalise(u: string): (r: string)
    ensures forall x :: x in r ==> !IsPunct(x) && !IsUpper(x)
    ensures forall x :: x in r <==> !IsPunct(x) && x in Lower(u)
  {
    Drop(Drop(Drop(Lower(u), ','), '.'), ':')
  }

  /** Reference definition: one pass that keeps the non-punctuation characters. */
  function KeepNonPunct(s: string): string
  {
    if |s| == 0 then "" else (if IsPunct(s[0]) then "" else [s[0]]) + KeepNonPunct(s[1..])
  }

  lemma {:induction false} DropAppend(a: string, b: string, c: char)
    ensures Drop(a + b, c) == Drop(a, c) + Drop(b, c)
    decreases |a|
  {
    if |a| == 0 {
      assert a + b == b;
    } else {
      assert (a + b)[1..] == a[1..] + b;
      DropAppend(a[1..], b, c);
    }
  }

  /** The three chained `replace` calls delete exactly the punctuation, in one pass, in order. */
  lemma {:induction false} ChainedDropIsKeep(s: string)
    ensures Drop(Drop(Drop(s, ','), '.'), ':') == KeepNonPunct(s)
    decreases |s|
  {
    if |s| > 0 {
      var head := if s[0] == ',' then "" else [s[0]];
      assert Drop(s, ',') == head + Drop(s[1..], ',');
      DropAppend(head, Drop(s[1..], ','), '.');
      var head2 := Drop(head, '.');
      DropAppend(head2, Drop(Drop(s[1..], ','), '.'), ':');
      ChainedDropIsKeep(s[1..]);
    }
  }

  lemma NormaliseIsKeep(u: string)
    ensures Normalise(u) == KeepNonPunct(Lower(u))
  {
    ChainedDropIsKeep(Lower(u));
  }

  /** Normalising an already normalised utterance changes nothing. */
  lemma NormaliseIdempotent(u: string)
    ensures Normalise(Normalise(u)) == Normalise(u)
  {
    var n := Normalise(u);
    assert Lower(n) == n;
  }

  // ---------------------------------------------------------------------------
  // Whitespace splitting
  // ---------------------------------------------------------------------------

  /** A token of `str.split()`: non-empty, no whitespace. */
  predicate IsWord(w: string)
  {
    |w| > 0 && forall k :: 0 <= k < |w| ==> !IsSpace(w[k])
  }

  predicate AllSpace(s: string)
  {
    forall k :: 0 <= k < |s| ==> IsSpace(s[k])
  }

  /** Length of the leading run of non-whitespace characters. */
  function WordLen(s: string): (n: nat)
    ensures n <= |s|
    ensures forall k :: 0 <= k < n ==> !IsSpace(s[k])
    ensures n < |s| ==> IsSpace(s[n])
  {
    if |s| == 0 || IsSpace(s[0]) then 0 else 1 + WordLen(s[1..])
  }

  /** `s.split()`: the maximal runs of non-whitespace characters, left to right. */
  function Split(s: string): (r: seq<string>)
    decreases |s|
    ensures forall i :: 0 <= i < |r| ==> IsWord(r[i])
    ensures |r| == 0 <==> AllSpace(s)
  {
    if |s| == 0 then []
    else if IsSpace(s[0]) then Split(s[1..])
    else
      var n := WordLen(s);
      [s[..n]] + Split(s[n..])
  }

  /** `" ".join(ws)`. */
  function Unwords(ws: seq<string>): string
  {
    if |ws| == 0 then "" else if |ws| == 1 then ws[0] else ws[0] + " " + Unwords(ws[1..])
  }

  lemma {:induction false} WordLenOfWord(w: string, rest: string)
    requires IsWord(w)
    requires |rest| == 0 || IsSpace(rest[0])
    ensures WordLen(w + rest) == |w|
    decreases |w|
  {
    if |w| > 1 {
      assert (w + rest)[1..] == w[1..] + rest;
      WordLenOfWord(w[1..], rest);
    } else {
      assert (w + rest)[1..] == rest;
    }
  }

  /** Whitespace in front of the first word produces no token. */
  lemma {:induction false} SplitSkipsSpace(ws: string, s: string)
    requires AllSpace(ws)
    ensures Split(ws + s) == Split(s)
    decreases |ws|
  {
    if |ws| > 0 {
      assert (ws + s)[1..] == ws[1..] + s;
      SplitSkipsSpace(ws[1..], s);
    } else {
      assert ws + s == s;
    }
  }

  /** A string without whitespace is a single token. */
  lemma {:induction false} SplitOneWord(w: string)
    requires IsWord(w)
    ensures Split(w) == [w]
  {
    WordLenOfWord(w, "");
    assert w + "" == w;
    assert w[|w|..] == "";
  }

  /** A word ended by whitespace is the first token, and splitting goes on after the
      whitespace. With SplitSkipsSpace and SplitOneWord this fixes Split on every
      string: the tokens are the maximal whitespace-free runs, in order. */
  lemma {:induction false} SplitWordThenSpace(w: string, ws: string, s: string)
    requires IsWord(w) && |ws| > 0 && AllSpace(ws)
    ensures Split(w + ws + s) == [w] + Split(s)
  {
    var rest := ws + s;
    var t := w + rest;
    assert w + ws + s == t;
    WordLenOfWord(w, rest);
    assert t[..|w|] == w;
    assert t[|w|..] == rest;
    SplitSkipsSpace(ws, s);
  }

  /** Splitting words joined by single spaces gives the words back. */
  lemma {:induction false} SplitUnwords(ws: seq<string>)
    requires forall i :: 0 <= i < |ws| ==> IsWord(ws[i])
    ensures Split(Unwords(ws)) == ws
    decreases |ws|
  {
    if |ws| == 1 {
      SplitOneWord(ws[0]);
    } else if |ws| > 1 {
      assert AllSpace(" ");
      SplitWordThenSpace(ws[0], " ", Unwords(ws[1..]));
      SplitUnwords(ws[1..]);
      assert ws == [ws[0]] + ws[1..];
    }
  }

  // ---------------------------------------------------------------------------
  // Substring search
  // ---------------------------------------------------------------------------

  predicate OccursAt(t: string, s: string, k: nat)
  {
    k + |t| <= |s| && s[k..k + |t|] == t
  }

  /** Python's `t in s` on two strings. */
  ghost predicate IsSubstring(t: string, s: string)
  {
    exists k: nat :: OccursAt(t, s, k)
  }

  function ContainsFrom(s: string, t: string, i: nat): (b: bool)
    requires i <= |s|
    decreases |s| - i
    ensures b <==> exists k: nat :: i <= k && OccursAt(t, s, k)
  {
    if i + |t| > |s| then false
    else if s[i..i + |t|] == t then assert OccursAt(t, s, i); true
    else ContainsFrom(s, t, i + 1)
  }

  /** Executable substring test: `t in s`. */
  function Contains(s: string, t: string): (b: bool)
    ensures b <==> IsSubstring(t, s)
  {
    ContainsFrom(s, t, 0)
  }
}
