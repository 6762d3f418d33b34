/** Python string operations the indexer and the searcher rely on:
    whitespace as `str.isspace` sees it, `str.strip()`, `str.split()` with no
    argument, `" ".join(...)` and `str(n)` for integers. */
module Text {

  /** The characters Python's `str.split()` and `str.strip()` treat as whitespace. */
  predicate IsSpace(c: char) {
    var n := c as int;
    (0x09 <= n <= 0x0D) || (0x1C <= n <= 0x20) || n == 0x85 || n == 0xA0 ||
    n == 0x1680 || (0x2000 <= n <= 0x200A) || n == 0x2028 || n == 0x2029 ||
    n == 0x202F || n == 0x205F || n == 0x3000
  }

  predicate AllSpace(s: string) {
    forall k :: 0 <= k < |s| ==> IsSpace(s[k])
  }

  predicate NoSpace(s: string) {
    forall k :: 0 <= k < |s| ==> !IsSpace(s[k])
  }

  // ---------------------------------------------------------------- strip

  /** The number of whitespace characters `s` starts with. */
  function LeadingSpace(s: string): (n: nat)
    ensures n <= |s|
    ensures forall k :: 0 <= k < n ==> IsSpace(s[k])
    ensures n < |s| ==> !IsSpace(s[n])
  {
    if s != [] && IsSpace(s[0]) then 1 + LeadingSpace(s[1..]) else 0
  }

  /** Where the whitespace `s` ends with begins. */
  function TrailingSpace(s: string): (m: nat)
    ensures m <= |s|
    ensures forall k :: m <= k < |s| ==> IsSpace(s[k])
    ensures m > 0 ==> !IsSpace(s[m - 1])
  {
    if s != [] && IsSpace(s[|s| - 1]) then TrailingSpace(s[..|s| - 1]) else |s|
  }

  /** Python `s.strip()`: the input without its leading and trailing whitespace. */
  function Strip(s: string): string {
    var a, b := LeadingSpace(s), TrailingSpace(s);
    if b <= a then [] else s[a..b]
  }

  /** `s.strip()` is the slice `s[a..b]` of `s`, everything cut off is whitespace,
      and what remains neither starts nor ends with whitespace. */
  lemma StripIsTrim(s: string) returns (a: nat, b: nat)
    ensures a <= b <= |s| && Strip(s) == s[a..b]
    ensures forall k :: 0 <= k < a ==> IsSpace(s[k])
    ensures forall k :: b <= k < |s| ==> IsSpace(s[k])
    ensures Strip(s) != [] ==> !IsSpace(Strip(s)[0]) && !IsSpace(Strip(s)[|Strip(s)| - 1])
  {
    a := LeadingSpace(s);
    b := if TrailingSpace(s) <= a then a else TrailingSpace(s);
    if Strip(s) != [] {
      assert Strip(s)[0] == s[a] && Strip(s)[|Strip(s)| - 1] == s[b - 1];
    }
  }

  /** `s.strip()` is empty exactly when `s` is all whitespace. */
  lemma StripEmptyIff(s: string)
    ensures Strip(s) == [] <==> AllSpace(s)
  {
    var a, b := StripIsTrim(s);
    if Strip(s) != [] {
      assert Strip(s)[0] == s[a] && !IsSpace(s[a]);
    }
  }

  /** A string that neither starts nor ends with whitespace is its own `strip()`. */
  lemma StripKeepsTrimmed(s: string)
    requires s != [] && !IsSpace(s[0]) && !IsSpace(s[|s| - 1])
    ensures Strip(s) == s
  {
  }

  // ---------------------------------------------------------------- split

  /** The longest prefix of `s` free of whitespace. */
  function Word(s: string): (w: string)
    ensures w <= s && NoSpace(w)
    ensures |w| < |s| ==> IsSpace(s[|w|])
  {
    if s == [] || IsSpace(s[0]) then [] else [s[0]] + Word(s[1..])
  }

  /** Python `s.split()`: the maximal runs of non-whitespace characters, in order. */
  function Split(s: string): (r: seq<string>)
    decreases |s|
  {
    if s == [] then []
    else if IsSpace(s[0]) then Split(s[1..])
    else
      var w := Word(s);
      [w] + Split(s[|w|..])
  }

  /** Every piece `s.split()` returns is non-empty and holds no whitespace. */
  lemma {:induction false} SplitTokensAreWords(s: string)
    ensures forall k :: 0 <= k < |Split(s)| ==> Split(s)[k] != [] && NoSpace(Split(s)[k])
    decreases |s|
  {
    if s == [] {
    } else if IsSpace(s[0]) {
      SplitTokensAreWords(s[1..]);
    } else {
      var w := Word(s);
      SplitTokensAreWords(s[|w|..]);
    }
  }

  /** The non-whitespace characters of `s`, in order. */
  function NonSpace(s: string): string {
    if s == [] then [] else (if IsSpace(s[0]) then [] else [s[0]]) + NonSpace(s[1..])
  }

  function Concat(ts: seq<string>): string {
    if ts == [] then [] else ts[0] + Concat(ts[1..])
  }

  lemma {:induction false} NonSpaceAppend(a: string, b: string)
    ensures NonSpace(a + b) == NonSpace(a) + NonSpace(b)
  {
    if a != [] {
      assert (a + b)[1..] == a[1..] + b;
      NonSpaceAppend(a[1..], b);
    } else {
      assert a + b == b;
    }
  }

  lemma {:induction false} NonSpaceOfWord(w: string)
    requires NoSpace(w)
    ensures NonSpace(w) == w
  {
    if w != [] { NonSpaceOfWord(w[1..]); }
  }

  /** `s.split()` loses nothing but whitespace: its pieces glued together are the
      non-whitespace characters of `s` in their original order. */
  lemma {:induction false} SplitKeepsNonSpace(s: string)
    ensures Concat(Split(s)) == NonSpace(s)
    decreases |s|
  {
    if s == [] {
    } else if IsSpace(s[0]) {
      SplitKeepsNonSpace(s[1..]);
    } else {
      var w := Word(s);
      var rest := s[|w|..];
      assert s == w + rest;
      SplitKeepsNonSpace(rest);
      NonSpaceAppend(w, rest);
      NonSpaceOfWord(w);
      assert Split(s) == [w] + Split(rest);
      assert Concat(Split(s)) == w + Concat(Split(rest));
    }
  }

  // ---------------------------------------------------------------- join

  /** Python `" ".join(ts)`. */
  function Join(ts: seq<string>): string {
    if ts == [] then []
    else if |ts| == 1 then ts[0]
    else ts[0] + " " + Join(ts[1..])
  }

  lemma {:induction false} WordOfWordThenSpace(w: string, t: string)
    requires NoSpace(w)
    requires t == [] || IsSpace(t[0])
    ensures Word(w + t) == w
  {
    if w == [] {
      assert w + t == t;
    } else {
      assert (w + t)[1..] == w[1..] + t;
      WordOfWordThenSpace(w[1..], t);
    }
  }

  lemma SplitOfWordThenRest(w: string, t: string)
    requires w != [] && NoSpace(w)
    requires t == [] || IsSpace(t[0])
    ensures Split(w + t) == [w] + Split(t)
  {
    WordOfWordThenSpace(w, t);
    assert (w + t)[|w|..] == t;
  }

  /** `" ".join` and `split()` are inverse on lists of non-empty, whitespace-free
      tokens: splitting the joined string gives the tokens back. */
  lemma {:induction false} SplitJoin(ts: seq<string>)
    requires forall k :: 0 <= k < |ts| ==> ts[k] != [] && NoSpace(ts[k])
    ensures Split(Join(ts)) == ts
  {
    if |ts| == 1 {
      SplitOfWordThenRest(ts[0], []);
      assert ts[0] + [] == ts[0];
    } else if |ts| > 1 {
      var rest := Join(ts[1..]);
      assert Join(ts) == ts[0] + (" " + rest);
      SplitOfWordThenRest(ts[0], " " + rest);
      assert (" " + rest)[1..] == rest;
      SplitJoin(ts[1..]);
    }
  }

  /** Joining non-empty, whitespace-free tokens gives a non-empty string that
      starts with the first token's first character and ends with the last
      token's last character, so it neither starts nor ends with whitespace. */
  lemma {:induction false} JoinEnds(ts: seq<string>)
    requires ts != [] && forall k :: 0 <= k < |ts| ==> ts[k] != [] && NoSpace(ts[k])
    ensures var j := Join(ts);
            && j != [] && j[0] == ts[0][0] && j[|j| - 1] == ts[|ts| - 1][|ts[|ts| - 1]| - 1]
            && !IsSpace(j[0]) && !IsSpace(j[|j| - 1])
  {
    if |ts| > 1 {
      JoinEnds(ts[1..]);
    }
  }

  /** Splitting a string and joining the pieces with single spaces keeps the
      pieces, collapses every run of whitespace between them to one space and
      drops the whitespace at both ends; a second split gives the same pieces. */
  lemma JoinSplitIsNormalised(s: string)
    ensures SplitsAs(Join(Split(s)), Split(s), SingleGaps(|Split(s)|))
    ensures Split(Join(Split(s))) == Split(s)
  {
    SplitTokensAreWords(s);
    JoinGaps(Split(s));
    SplitJoin(Split(s));
  }

  // ---------------------------------------------------------------- split, characterised

  /** `g[0] + ws[0] + g[1] + ... + ws[n-1] + g[n]`: words `ws` with the gaps `g`
      around and between them. */
  function Interleave(g: seq<string>, ws: seq<string>): string
    requires |g| == |ws| + 1
  {
    if ws == [] then g[0] else g[0] + ws[0] + Interleave(g[1..], ws[1..])
  }

  /** `s` is the words `ws`, each non-empty and whitespace-free, separated by the
      whitespace gaps `g`: the outer gaps may be empty, the inner ones may not. */
  predicate SplitsAs(s: string, ws: seq<string>, g: seq<string>) {
    && |g| == |ws| + 1
    && (forall k :: 0 <= k < |ws| ==> ws[k] != [] && NoSpace(ws[k]))
    && (forall k :: 0 <= k < |g| ==> AllSpace(g[k]))
    && (forall k :: 0 < k < |ws| ==> g[k] != [])
    && s == Interleave(g, ws)
  }

  /** Gaps of a `" ".join`: empty at both ends, one space between words. */
  function SingleGaps(n: nat): (g: seq<string>)
    ensures |g| == n + 1 && g[0] == [] && g[n] == []
    ensures forall k :: 0 < k < n ==> g[k] == " "
  {
    if n == 0 then [[]] else [[]] + seq(n - 1, _ => " ") + [[]]
  }

  lemma InterleaveWidenFirstGap(a: string, g: seq<string>, ws: seq<string>)
    requires |g| == |ws| + 1
    ensures Interleave([a + g[0]] + g[1..], ws) == a + Interleave(g, ws)
  {
    var g2 := [a + g[0]] + g[1..];
    assert g2[0] == a + g[0] && g2[1..] == g[1..];
  }

  /** The whitespace gaps around and between the pieces of `s.split()`. Together
      with `SplitUnique` this fixes `split()` on every input: it cuts exactly at
      the whitespace runs and nowhere else. */
  function Gaps(s: string): (g: seq<string>)
    ensures SplitsAs(s, Split(s), g)
    decreases |s|
  {
    if s == [] then [[]]
    else if IsSpace(s[0]) then
      var g' := Gaps(s[1..]);
      assert s == [s[0]] + s[1..];
      PrependSpace(s[0], s[1..], Split(s[1..]), g');
      [[s[0]] + g'[0]] + g'[1..]
    else
      var w := Word(s);
      var rest := s[|w|..];
      var g' := Gaps(rest);
      assert s == w + rest;
      PrependWord(w, rest, Split(rest), g');
      [[]] + g'
  }

  /** A whitespace character in front joins the first gap. */
  lemma PrependSpace(c: char, t: string, ws: seq<string>, g: seq<string>)
    requires IsSpace(c) && SplitsAs(t, ws, g)
    ensures SplitsAs([c] + t, ws, [[c] + g[0]] + g[1..])
  {
    var g2 := [[c] + g[0]] + g[1..];
    InterleaveWidenFirstGap([c], g, ws);
    forall k | 0 <= k < |g2| ensures AllSpace(g2[k]) {
      if k > 0 { assert g2[k] == g[k]; }
    }
    forall k | 0 < k < |ws| ensures g2[k] != [] {
      assert g2[k] == g[k];
    }
  }

  /** A word in front, followed by whitespace or nothing, is the first piece,
      after an empty first gap. */
  lemma PrependWord(w: string, t: string, ws: seq<string>, g: seq<string>)
    requires w != [] && NoSpace(w)
    requires t == [] || IsSpace(t[0])
    requires SplitsAs(t, ws, g)
    ensures SplitsAs(w + t, [w] + ws, [[]] + g)
  {
    GapAfterWord(t, ws, g);
    var g2, ws2 := [[]] + g, [w] + ws;
    assert g2[1..] == g && ws2[1..] == ws;
    assert Interleave(g2, ws2) == [] + w + Interleave(g, ws);
    forall k | 0 <= k < |g2| ensures AllSpace(g2[k]) {
      if k > 0 { assert g2[k] == g[k - 1]; }
    }
    forall k | 0 <= k < |ws2| ensures ws2[k] != [] && NoSpace(ws2[k]) {
      if k > 0 { assert ws2[k] == ws[k - 1]; }
    }
    forall k | 0 < k < |ws2| ensures g2[k] != [] {
      assert g2[k] == g[k - 1];
    }
  }

  /** After a word, the next gap is non-empty whenever another word follows. */
  lemma GapAfterWord(rest: string, ws: seq<string>, g: seq<string>)
    requires SplitsAs(rest, ws, g)
    requires rest == [] || IsSpace(rest[0])
    ensures ws != [] ==> g[0] != []
  {
  }

  lemma {:induction false} SplitAllSpace(s: string)
    requires AllSpace(s)
    ensures Split(s) == []
  {
    if s != [] { SplitAllSpace(s[1..]); }
  }

  lemma {:induction false} SplitSkipsSpace(a: string, t: string)
    requires AllSpace(a)
    ensures Split(a + t) == Split(t)
  {
    if a != [] {
      assert (a + t)[1..] == a[1..] + t;
      SplitSkipsSpace(a[1..], t);
    } else {
      assert a + t == t;
    }
  }

  /** Any way of writing `s` as words separated by whitespace gaps is the one
      `s.split()` finds. */
  lemma {:induction false} SplitUnique(s: string, ws: seq<string>, g: seq<string>)
    requires SplitsAs(s, ws, g)
    ensures Split(s) == ws
    decreases |ws|
  {
    if ws == [] {
      SplitAllSpace(s);
    } else {
      var t := Interleave(g[1..], ws[1..]);
      assert s == g[0] + (ws[0] + t);
      SplitSkipsSpace(g[0], ws[0] + t);
      assert SplitsAs(t, ws[1..], g[1..]);
      if ws[1..] != [] {
        assert t == g[1] + ws[1] + Interleave(g[2..], ws[2..]);
        assert t[0] == g[1][0];
      }
      SplitOfWordThenRest(ws[0], t);
      SplitUnique(t, ws[1..], g[1..]);
    }
  }

  /** `" ".join(ts)`, for any tokens, puts one space between neighbours and
      nothing at either end. */
  lemma {:induction false} JoinInterleaves(ts: seq<string>)
    ensures Join(ts) == Interleave(SingleGaps(|ts|), ts)
  {
    var n := |ts|;
    if n == 1 {
      assert Interleave(SingleGaps(1), ts) == [] + ts[0] + [];
    } else if n > 1 {
      JoinInterleaves(ts[1..]);
      assert ts == [ts[0]] + ts[1..];
      SingleSpacedStep(ts[0], ts[1..], Join(ts[1..]));
    }
  }

  /** For non-empty, whitespace-free tokens those single spaces are exactly the
      whitespace runs `split()` cuts at. */
  lemma JoinGaps(ts: seq<string>)
    requires forall k :: 0 <= k < |ts| ==> ts[k] != [] && NoSpace(ts[k])
    ensures SplitsAs(Join(ts), ts, SingleGaps(|ts|))
  {
    JoinInterleaves(ts);
    SingleGapsAreSpace(|ts|);
    SingleSpacedWords(Join(ts), ts);
  }

  lemma SingleSpacedWords(j: string, ts: seq<string>)
    requires forall k :: 0 <= k < |ts| ==> ts[k] != [] && NoSpace(ts[k])
    requires j == Interleave(SingleGaps(|ts|), ts)
    requires forall k :: 0 <= k <= |ts| ==> AllSpace(SingleGaps(|ts|)[k])
    requires forall k :: 0 < k < |ts| ==> SingleGaps(|ts|)[k] != []
    ensures SplitsAs(j, ts, SingleGaps(|ts|))
  {
  }

  /** Every gap of a `" ".join` is whitespace, and the inner ones are not empty. */
  lemma SingleGapsAreSpace(n: nat)
    ensures forall k :: 0 <= k <= n ==> AllSpace(SingleGaps(n)[k])
    ensures forall k :: 0 < k < n ==> SingleGaps(n)[k] != []
  {
    var g := SingleGaps(n);
    assert IsSpace(' ');
    forall k | 0 <= k <= n ensures AllSpace(g[k]) {
      if 0 < k < n { assert g[k] == " "; } else { assert g[k] == []; }
    }
  }

  /** One more word in front, with a single space after it. */
  lemma SingleSpacedStep(w: string, ws: seq<string>, j: string)
    requires ws != [] && j == Interleave(SingleGaps(|ws|), ws)
    ensures w + " " + j == Interleave(SingleGaps(|ws| + 1), [w] + ws)
  {
    var g, g' := SingleGaps(|ws| + 1), SingleGaps(|ws|);
    var ws2 := [w] + ws;
    SingleGapsTail(|ws| + 1);
    InterleaveWidenFirstGap(" ", g', ws);
    assert Interleave(g[1..], ws) == " " + j;
    assert ws2[0] == w && ws2[1..] == ws;
    assert Interleave(g, ws2) == [] + w + (" " + j);
    SpaceBetween(w, j);
  }

  lemma SpaceBetween(w: string, j: string)
    ensures [] + w + (" " + j) == w + " " + j
  {
  }

  /** Dropping the first gap of `SingleGaps(n)` leaves `SingleGaps(n - 1)` with a
      space put into its first gap. */
  lemma SingleGapsTail(n: nat)
    requires n > 1
    ensures SingleGaps(n)[1..] == [" " + SingleGaps(n - 1)[0]] + SingleGaps(n - 1)[1..]
  {
    var g, g' := SingleGaps(n), SingleGaps(n - 1);
    var t := [" " + g'[0]] + g'[1..];
    assert " " + g'[0] == " ";
    forall k | 0 <= k < n ensures g[1..][k] == t[k] {
      if k > 0 { assert g[1..][k] == g[k + 1] && t[k] == g'[k]; }
    }
  }

  // ---------------------------------------------------------------- str(int)

  /** The character of decimal digit `d`. */
  function DigitChar(d: nat): (c: char)
    requires d < 10
    ensures (c as int) - ('0' as int) == d
  {
    "0123456789"[d]
  }

  /** Python `str(n)` for a non-negative integer: its decimal digits, with no
      leading zero except in `"0"` itself. */
  function NatToString(n: nat): (r: string)
    ensures |r| >= 1
    ensures forall k :: 0 <= k < |r| ==> '0' <= r[k] <= '9'
    ensures r[0] == '0' <==> n == 0
    ensures r[0] == '0' ==> |r| == 1
  {
    if n < 10 then [DigitChar(n)] else NatToString(n / 10) + [DigitChar(n % 10)]
  }

  /** Python `str(n)` for any integer. */
  function IntToString(n: int): string {
    if n < 0 then "-" + NatToString(-n) else NatToString(n)
  }

  /** The number a string of decimal digits denotes. */
  function DecimalValue(s: string): nat
    requires forall k :: 0 <= k < |s| ==> '0' <= s[k] <= '9'
  {
    if s == [] then 0
    else DecimalValue(s[..|s| - 1]) * 10 + ((s[|s| - 1] as int) - ('0' as int))
  }

  /** Reading back the decimal digits of `n` gives `n`. */
  lemma {:induction false} DecimalValueOfNatToString(n: nat)
    ensures DecimalValue(NatToString(n)) == n
  {
    if n < 10 {
      DecimalValueAppend([], DigitChar(n));
      assert [] + [DigitChar(n)] == NatToString(n);
    } else {
      var q, d := n / 10, n % 10;
      DecimalValueOfNatToString(q);
      DecimalValueAppend(NatToString(q), DigitChar(d));
    }
  }

  /** Appending a digit multiplies the value by ten and adds the digit. */
  lemma DecimalValueAppend(s: string, c: char)
    requires forall k :: 0 <= k < |s| ==> '0' <= s[k] <= '9'
    requires '0' <= c <= '9'
    ensures DecimalValue(s + [c]) == DecimalValue(s) * 10 + ((c as int) - ('0' as int))
  {
    assert (s + [c])[..|s|] == s;
  }

  /** Distinct numbers print differently. */
  lemma NatToStringInjective(a: nat, b: nat)
    requires NatToString(a) == NatToString(b)
    ensures a == b
  {
    DecimalValueOfNatToString(a);
    DecimalValueOfNatToString(b);
  }
}
