/** Character classes and string helpers shared by the extractors.
    Python's Unicode-aware `\s`, `\w`, `str.lower()` and `str.strip()` are
    modelled on their ASCII part. */
module Text {

  /** `\s` and `str.isspace()` on ASCII: space, \t \n \v \f \r and the
      four separator controls 0x1C-0x1F. */
  predicate IsSpace(c: char) {
    c == ' ' || ('\t' <= c <= '\r') || ('\U{1C}' <= c <= '\U{1F}')
  }

  /** `\w` on ASCII. */
  predicate IsWordChar(c: char) {
    ('a' <= c <= 'z') || ('A' <= c <= 'Z') || ('0' <= c <= '9') || c == '_'
  }

  predicate IsDigit(c: char) {
    '0' <= c <= '9'
  }

  function LowerChar(c: char): (d: char)
    ensures !('A' <= d <= 'Z')
    ensures !('A' <= c <= 'Z') ==> d == c
  {
    if 'A' <= c <= 'Z' then (c as int + 32) as char else c
  }

  /** `str.lower()` on ASCII letters. */
  function Lower(s: string): (r: string)
    ensures |r| == |s|
    ensures forall i :: 0 <= i < |s| ==> r[i] == LowerChar(s[i]) && !('A' <= r[i] <= 'Z')
  {
    if s == [] then [] else [LowerChar(s[0])] + Lower(s[1..])
  }

  /** Lower-casing twice is lower-casing once. */
  lemma LowerIdempotent(s: string)
    ensures Lower(Lower(s)) == Lower(s)
  {
    var t := Lower(s);
    assert forall i :: 0 <= i < |t| ==> LowerChar(t[i]) == t[i];
  }

  lemma LowerConcat(a: string, b: string)
    ensures Lower(a + b) == Lower(a) + Lower(b)
  {
    forall i | 0 <= i < |a + b| ensures Lower(a + b)[i] == (Lower(a) + Lower(b))[i] {
      if i >= |a| {
        assert (a + b)[i] == b[i - |a|];
      }
    }
  }

  /** A text without capital letters is its own lower-cased form. */
  lemma LowerUnchanged(w: string)
    requires forall k :: 0 <= k < |w| ==> !('A' <= w[k] <= 'Z')
    ensures Lower(w) == w
  {
  }

  /** Lower-casing two texts joined by a character that is not a capital. */
  lemma LowerJoinStep(a: string, c: char, b: string)
    requires !('A' <= c <= 'Z')
    ensures Lower(a + [c] + b) == Lower(a) + [c] + Lower(b)
  {
    var s, r := a + [c] + b, Lower(a) + [c] + Lower(b);
    forall i | 0 <= i < |s| ensures Lower(s)[i] == r[i] {
      if i < |a| {
        assert s[i] == a[i] && r[i] == Lower(a)[i];
      } else if i == |a| {
        assert s[i] == c && r[i] == c;
      } else {
        assert s[i] == b[i - |a| - 1] && r[i] == Lower(b)[i - |a| - 1];
      }
    }
  }

  /** `t` is `s` lower-cased, compared one character at a time. */
  predicate LowersTo(s: string, t: string)
    decreases |s|
  {
    |s| == |t| && (s == [] || (LowerChar(s[0]) == t[0] && LowersTo(s[1..], t[1..])))
  }

  lemma {:induction false} LowersToLower(s: string, t: string)
    requires LowersTo(s, t)
    ensures Lower(s) == t
    decreases |s|
  {
    if s != [] {
      LowersToLower(s[1..], t[1..]);
      assert t == [t[0]] + t[1..];
    }
  }

  /** A lower-case letter absent from `s` in both cases is absent from `Lower(s)`. */
  lemma LowerMissing(s: string, c: char)
    requires 'a' <= c <= 'z'
    requires c !in s && (c as int - 32) as char !in s
    ensures c !in Lower(s)
  {
    forall i | 0 <= i < |s| ensures Lower(s)[i] != c {
      assert s[i] != c && s[i] != (c as int - 32) as char;
    }
  }

  /** Length of the longest run of characters satisfying `p` that starts at `i`. */
  function Span(t: string, i: nat, p: char -> bool): (n: nat)
    requires i <= |t|
    ensures i + n <= |t|
    ensures forall k :: i <= k < i + n ==> p(t[k])
    ensures i + n == |t| || !p(t[i + n])
    decreases |t| - i
  {
    if i < |t| && p(t[i]) then 1 + Span(t, i + 1, p) else 0
  }

  /** A run of `n` characters satisfying `p` that stops at the end or at a
      character failing `p` is the maximal run. */
  lemma {:induction false} SpanExact(t: string, i: nat, p: char -> bool, n: nat)
    requires i + n <= |t|
    requires forall k :: i <= k < i + n ==> p(t[k])
    requires i + n == |t| || !p(t[i + n])
    ensures Span(t, i, p) == n
    decreases n
  {
    if n > 0 {
      SpanExact(t, i + 1, p, n - 1);
    }
  }

  /** Number of leading whitespace characters. */
  function LeadingSpaces(s: string): (n: nat)
    ensures n <= |s|
    ensures forall k :: 0 <= k < n ==> IsSpace(s[k])
    ensures n == |s| || !IsSpace(s[n])
  {
    Span(s, 0, IsSpace)
  }

  /** Number of trailing whitespace characters. */
  function TrailingSpaces(s: string): (n: nat)
    ensures n <= |s|
    ensures forall k :: |s| - n <= k < |s| ==> IsSpace(s[k])
    ensures n == |s| || !IsSpace(s[|s| - n - 1])
  {
    if |s| > 0 && IsSpace(s[|s| - 1]) then 1 + TrailingSpaces(s[..|s| - 1]) else 0
  }

  /** `str.strip()`: the part of `s` between its leading and its trailing
      whitespace; everything outside that part is whitespace. */
  function Strip(s: string): (r: string)
    ensures r == [] || (!IsSpace(r[0]) && !IsSpace(r[|r| - 1]))
    ensures LeadingSpaces(s) + |r| <= |s| && r == s[LeadingSpaces(s)..LeadingSpaces(s) + |r|]
    ensures forall k :: 0 <= k < |s| && !(LeadingSpaces(s) <= k < LeadingSpaces(s) + |r|) ==> IsSpace(s[k])
  {
    var a := LeadingSpaces(s);
    var t := s[a..];
    var b := TrailingSpaces(t);
    assert t[..|t| - b] == s[a..a + (|t| - b)];
    t[..|t| - b]
  }

  /** Stripping an already stripped string changes nothing. */
  lemma StripIdempotent(s: string)
    ensures Strip(Strip(s)) == Strip(s)
  {
    var r := Strip(s);
    if r != [] {
      assert LeadingSpaces(r) == 0;
      assert TrailingSpaces(r) == 0;
    }
  }

  /** `s[:n]`: the longest prefix of `s` that is at most `n` characters long. */
  function Truncate(s: string, n: nat): (r: string)
    ensures |r| <= n && r <= s
    ensures |s| <= n ==> r == s
    ensures |s| > n ==> |r| == n
  {
    if |s| <= n then s else s[..n]
  }

  /** Appending to a list that was itself built by appending. */
  lemma AppendAssoc<T>(a: seq<T>, b: seq<T>, c: seq<T>)
    ensures (a + b) + c == a + (b + c)
  {
  }

  /** `k` occurs in `s` starting at index `i`. */
  predicate OccursAt(s: string, k: string, i: int) {
    0 <= i && i + |k| <= |s| && s[i..i + |k|] == k
  }

  /** Python's `k in s` for strings: `k` occurs in `s` as a contiguous substring. */
  predicate Contains(s: string, k: string)
    decreases |s|
  {
    |k| <= |s| && (s[..|k|] == k || Contains(s[1..], k))
  }

  lemma {:induction false} ContainsIff(s: string, k: string)
    ensures Contains(s, k) <==> exists i :: OccursAt(s, k, i)
    decreases |s|
  {
    if |k| <= |s| && s[..|k|] != k {
      ContainsIff(s[1..], k);
      if Contains(s[1..], k) {
        var i :| OccursAt(s[1..], k, i);
        assert s[i + 1..i + 1 + |k|] == s[1..][i..i + |k|];
        assert OccursAt(s, k, i + 1);
      }
      if exists i :: OccursAt(s, k, i) {
        var i :| OccursAt(s, k, i);
        assert i != 0;
        assert s[1..][i - 1..i - 1 + |k|] == s[i..i + |k|];
        assert OccursAt(s[1..], k, i - 1);
      }
    } else if |k| <= |s| {
      assert OccursAt(s, k, 0);
    } else {
      assert forall i :: !OccursAt(s, k, i);
    }
  }

  /** A witness occurrence proves containment. */
  lemma ContainsAt(s: string, k: string, i: nat)
    requires OccursAt(s, k, i)
    ensures Contains(s, k)
  {
    ContainsIff(s, k);
  }

  /** A keyword with a character that `s` lacks does not occur in `s`. */
  lemma NotContainsMissingChar(s: string, k: string, c: char)
    requires c in k && c !in s
    ensures !Contains(s, k)
  {
    ContainsIff(s, k);
  }

  /** An occurrence that ends before the joining character is one in `a`. */
  lemma OccursLeft(a: string, c: char, b: string, k: string, i: int)
    requires 0 <= i && i + |k| <= |a|
    ensures OccursAt(a + [c] + b, k, i) == OccursAt(a, k, i)
  {
    assert (a + [c] + b)[i..i + |k|] == a[i..i + |k|];
  }

  /** An occurrence that starts after the joining character is one in `b`. */
  lemma OccursRight(a: string, c: char, b: string, k: string, i: int)
    requires i > |a|
    ensures OccursAt(a + [c] + b, k, i) == OccursAt(b, k, i - |a| - 1)
  {
    if i + |k| <= |a| + 1 + |b| {
      assert (a + [c] + b)[i..i + |k|] == b[i - |a| - 1..i - |a| - 1 + |k|];
    }
  }

  /** An occurrence over the joining character would hold that character. */
  lemma OccursAcross(a: string, c: char, b: string, k: string, i: int)
    requires 0 <= i <= |a| < i + |k| && c !in k
    ensures !OccursAt(a + [c] + b, k, i)
  {
    if i + |k| <= |a| + 1 + |b| {
      assert (a + [c] + b)[i..i + |k|][|a| - i] == c;
      assert k[|a| - i] in k;
    }
  }

  /** A keyword occurs in neither `a` nor `b` and lacks the character `c`
      between them, so it does not occur across the join either. */
  lemma ContainsSplit(a: string, c: char, b: string, k: string)
    requires c !in k && !Contains(a, k) && !Contains(b, k)
    ensures !Contains(a + [c] + b, k)
  {
    var s := a + [c] + b;
    ContainsIff(s, k);
    ContainsIff(a, k);
    ContainsIff(b, k);
    forall i | 0 <= i && i + |k| <= |s| ensures !OccursAt(s, k, i) {
      if i + |k| <= |a| {
        OccursLeft(a, c, b, k, i);
      } else if i > |a| {
        OccursRight(a, c, b, k, i);
      } else {
        OccursAcross(a, c, b, k, i);
      }
    }
  }

  /** Python's `any(k in s for k in ks)`: some keyword of `ks` occurs in `s`. */
  predicate ContainsAny(s: string, ks: seq<string>) {
    exists j :: 0 <= j < |ks| && Contains(s, ks[j])
  }

  /** Number of characters of `s` that belong to `seps`. */
  function CountIn(s: string, seps: set<char>): nat {
    if s == [] then 0 else (if s[0] in seps then 1 else 0) + CountIn(s[1..], seps)
  }

  /** `re.split('[...]', s)` for a character class: the pieces between separators,
      empty pieces included. */
  function SplitOn(s: string, seps: set<char>): (r: seq<string>)
    ensures |r| == CountIn(s, seps) + 1
    ensures forall i, c :: 0 <= i < |r| && c in r[i] ==> c !in seps
  {
    if s == [] then [""]
    else
      var rest := SplitOn(s[1..], seps);
      if s[0] in seps then [""] + rest
      else [[s[0]] + rest[0]] + rest[1..]
  }

  /** A text without separators is one piece. */
  lemma {:induction false} SplitOnNone(a: string, seps: set<char>)
    requires forall k :: 0 <= k < |a| ==> a[k] !in seps
    ensures SplitOn(a, seps) == [a]
  {
    if a != [] {
      SplitOnNone(a[1..], seps);
      assert [a[0]] + a[1..] == a;
    }
  }

  /** A text without separators followed by one separator: that text, then
      the empty piece after the separator. */
  lemma {:induction false} SplitOnLast(a: string, c: char, seps: set<char>)
    requires forall k :: 0 <= k < |a| ==> a[k] !in seps
    requires c in seps
    ensures SplitOn(a + [c], seps) == [a, ""]
  {
    if a == [] {
      assert [c][1..] == [];
    } else {
      assert (a + [c])[1..] == a[1..] + [c];
      SplitOnLast(a[1..], c, seps);
      assert [a[0]] + a[1..] == a;
    }
  }

  /** A text without separators, a separator, then anything: that text is the
      first piece and the pieces of the remainder follow. */
  lemma {:induction false} SplitOnStep(a: string, c: char, b: string, seps: set<char>)
    requires forall k :: 0 <= k < |a| ==> a[k] !in seps
    requires c in seps
    ensures SplitOn(a + [c] + b, seps) == [a] + SplitOn(b, seps)
  {
    var s := a + [c] + b;
    if a == [] {
      assert s[0] == c && s[1..] == b;
    } else {
      assert s[0] == a[0] && s[1..] == a[1..] + [c] + b;
      SplitOnStep(a[1..], c, b, seps);
      assert [a[0]] + a[1..] == a;
    }
  }

  /** The separator characters of `s`, in order. */
  function SepsIn(s: string, seps: set<char>): (r: seq<char>)
    ensures |r| == CountIn(s, seps)
    ensures forall i :: 0 <= i < |r| ==> r[i] in seps
  {
    if s == [] then []
    else (if s[0] in seps then [s[0]] else []) + SepsIn(s[1..], seps)
  }

  /** Pieces with the characters of `cs` put back between them. */
  function Interleave(pieces: seq<string>, cs: seq<char>): string
    requires |pieces| == |cs| + 1
    decreases |cs|
  {
    if cs == [] then pieces[0] else pieces[0] + [cs[0]] + Interleave(pieces[1..], cs[1..])
  }

  lemma InterleaveCons(x: string, pieces: seq<string>, cs: seq<char>)
    requires |pieces| == |cs| + 1
    ensures Interleave([x + pieces[0]] + pieces[1..], cs) == x + Interleave(pieces, cs)
  {
    var ps := [x + pieces[0]] + pieces[1..];
    assert ps[0] == x + pieces[0];
    if cs != [] {
      assert ps[1..] == pieces[1..];
      AppendAssoc(x, pieces[0] + [cs[0]], Interleave(pieces[1..], cs[1..]));
      AppendAssoc(x, pieces[0], [cs[0]]);
    }
  }

  /** `re.split` loses nothing: putting the separators back between the
      pieces, in order, gives the text again. */
  lemma {:induction false} SplitInterleave(s: string, seps: set<char>)
    ensures Interleave(SplitOn(s, seps), SepsIn(s, seps)) == s
  {
    if s != [] {
      var rest := SplitOn(s[1..], seps);
      var cs := SepsIn(s[1..], seps);
      SplitInterleave(s[1..], seps);
      if s[0] in seps {
        assert SepsIn(s, seps) == [s[0]] + cs;
        assert ([""] + rest)[1..] == rest;
        assert ([s[0]] + cs)[1..] == cs;
      } else {
        assert SepsIn(s, seps) == cs;
        InterleaveCons([s[0]], rest, cs);
      }
      assert [s[0]] + s[1..] == s;
    }
  }

  /** Pieces joined back with one separator character in between. */
  function JoinWith(pieces: seq<string>, sep: char): string
    requires |pieces| > 0
  {
    if |pieces| == 1 then pieces[0] else pieces[0] + [sep] + JoinWith(pieces[1..], sep)
  }

  /** Each piece lower-cased. */
  function LowerWords(ws: seq<string>): (ls: seq<string>)
    ensures |ls| == |ws| && forall i :: 0 <= i < |ws| ==> ls[i] == Lower(ws[i])
  {
    seq(|ws|, i requires 0 <= i < |ws| => Lower(ws[i]))
  }

  /** Lower-casing a space-joined text lower-cases each piece. */
  lemma {:induction false} LowerJoinWords(ws: seq<string>)
    requires |ws| > 0
    ensures Lower(JoinWith(ws, ' ')) == JoinWith(LowerWords(ws), ' ')
  {
    if |ws| > 1 {
      LowerJoinWords(ws[1..]);
      assert LowerWords(ws[1..]) == LowerWords(ws)[1..];
      LowerJoinStep(ws[0], ' ', JoinWith(ws[1..], ' '));
    }
  }

  /** A keyword that occurs in none of the pieces and lacks the separator
      does not occur in the lower-cased join. */
  lemma {:induction false} NotContainsJoin(ws: seq<string>, sep: char, k: string)
    requires |ws| > 0 && !('A' <= sep <= 'Z') && sep !in k
    requires forall i :: 0 <= i < |ws| ==> !Contains(Lower(ws[i]), k)
    ensures !Contains(Lower(JoinWith(ws, sep)), k)
  {
    if |ws| > 1 {
      var rest := JoinWith(ws[1..], sep);
      NotContainsJoin(ws[1..], sep, k);
      LowerJoinStep(ws[0], sep, rest);
      ContainsSplit(Lower(ws[0]), sep, Lower(rest), k);
    }
  }

  /** Pieces without separators, joined by a character that is not one,
      hold no separator. */
  lemma {:induction false} JoinAvoids(ws: seq<string>, sep: char, seps: set<char>)
    requires |ws| > 0 && sep !in seps
    requires forall i, c :: 0 <= i < |ws| && c in seps ==> c !in ws[i]
    ensures forall k :: 0 <= k < |JoinWith(ws, sep)| ==> JoinWith(ws, sep)[k] !in seps
  {
    if |ws| > 1 {
      JoinAvoids(ws[1..], sep, seps);
      var rest := JoinWith(ws[1..], sep);
      var j := ws[0] + [sep] + rest;
      assert JoinWith(ws, sep) == j;
      forall k | 0 <= k < |j| ensures j[k] !in seps {
        if k < |ws[0]| {
          assert j[k] == ws[0][k];
        } else if k > |ws[0]| {
          assert j[k] == rest[k - |ws[0]| - 1];
        }
      }
    } else {
      assert JoinWith(ws, sep) == ws[0];
    }
  }

  /** Splitting on a single character loses nothing: joining the pieces with it
      gives back the original text. */
  lemma {:induction false} SplitJoinRoundTrip(s: string, sep: char)
    ensures JoinWith(SplitOn(s, {sep}), sep) == s
  {
    if s != [] {
      var rest := SplitOn(s[1..], {sep});
      SplitJoinRoundTrip(s[1..], sep);
      if s[0] == sep {
        assert SplitOn(s, {sep}) == [""] + rest;
        assert ([""] + rest)[1..] == rest;
      } else {
        var r := SplitOn(s, {sep});
        assert r == [[s[0]] + rest[0]] + rest[1..];
        if |rest| == 1 {
          assert r == [[s[0]] + rest[0]];
        } else {
          assert r[1..] == rest[1..];
          assert JoinWith(rest, sep) == rest[0] + [sep] + JoinWith(rest[1..], sep);
        }
      }
    }
  }
}
