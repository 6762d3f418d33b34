/** `safe_parse_tokens` of modules/indexer.py: turns the stored text of a token
    list into a list of strings and never fails. The Python literal evaluation
    and the missing-value test it relies on are foreign calls; their outcome is
    given here as a tagged value. */
module TokenParser {
  import opened Text

  /** The Python values a literal list may hold, as far as truthiness and
      `str()` are concerned. */
  datatype Literal =
    | PyStr(s: string)
    | PyInt(n: int)
    | PyBool(b: bool)
    | PyNone
      /** any other literal (float, tuple, nested list, ...): whether it is
          truthy, and what `str()` prints for it */
    | PyOther(truthy: bool, text: string)

  /** What the missing-value test and the literal evaluation make of a stored cell.
      `ParsedList` stands for a list whose comprehension runs to the end: `str()`
      of every truthy item succeeds. A cell whose comprehension raises
      `ValueError` (an integer too long to print, say) takes the same fallback
      as a literal that does not parse, so it is a `SyntaxOrValueError`. */
  datatype TokenCell =
    | Missing                          // the dataset's missing-value sentinel
    | ParsedList(items: seq<Literal>)  // evaluates to a list
    | ParsedOther                      // evaluates to something other than a list
    | SyntaxOrValueError(raw: string)  // evaluation raises ValueError or SyntaxError; raw is str(cell)
    | UnexpectedError                  // evaluation raises any other exception

  /** Python truthiness of a literal. */
  predicate Truthy(x: Literal) {
    match x
    case PyStr(s) => s != []
    case PyInt(n) => n != 0
    case PyBool(b) => b
    case PyNone => false
    case PyOther(t, _) => t
  }

  /** Python `str(x)`. */
  function Str(x: Literal): string {
    match x
    case PyStr(s) => s
    case PyInt(n) => IntToString(n)
    case PyBool(b) => if b then "True" else "False"
    case PyNone => "None"
    case PyOther(_, text) => text
  }

  /** The positions of the truthy items, in increasing order. */
  function TruthyPositions(items: seq<Literal>): seq<nat> {
    if items == [] then []
    else
      TruthyPositions(items[..|items| - 1])
      + (if Truthy(items[|items| - 1]) then [|items| - 1] else [])
  }

  /** `[str(t) for t in items if t]`: the truthy items, stringified, in order. */
  function KeptTokens(items: seq<Literal>): seq<string> {
    if items == [] then []
    else
      KeptTokens(items[..|items| - 1])
      + (if Truthy(items[|items| - 1]) then [Str(items[|items| - 1])] else [])
  }

  /** The comprehension keeps exactly the truthy items, in their order: the
      positions listed are increasing, each holds a truthy item, every truthy
      item is listed, and the k-th token is `str()` of the k-th listed item. */
  lemma {:induction false} KeptTokensSpec(items: seq<Literal>)
    ensures var ps, r := TruthyPositions(items), KeptTokens(items);
            && |r| == |ps| <= |items|
            && (forall k :: 0 <= k < |ps| ==> ps[k] < |items| && Truthy(items[ps[k]]))
            && (forall k, l :: 0 <= k < l < |ps| ==> ps[k] < ps[l])
            && (forall j :: 0 <= j < |items| && Truthy(items[j]) ==> j in ps)
            && (forall k :: 0 <= k < |r| ==> r[k] == Str(items[ps[k]]))
  {
    if items != [] {
      var n := |items| - 1;
      var front := items[..n];
      KeptTokensSpec(front);
      var ps, r := TruthyPositions(items), KeptTokens(items);
      var ps0, r0 := TruthyPositions(front), KeptTokens(front);
      forall k | 0 <= k < |ps0| ensures ps[k] == ps0[k] && items[ps0[k]] == front[ps0[k]] && r[k] == r0[k] {
      }
      forall j | 0 <= j < |items| && Truthy(items[j]) ensures j in ps {
        if j < n {
          assert front[j] == items[j];
          assert j in ps0;
        }
      }
    }
  }

  /** `safe_parse_tokens(cell)`. */
  function SafeParseTokens(cell: TokenCell): (r: seq<string>)
    ensures cell.Missing? || cell.ParsedOther? || cell.UnexpectedError? ==> r == []
    ensures cell.ParsedList? ==>
              && |r| == |TruthyPositions(cell.items)| <= |cell.items|
              && forall k :: 0 <= k < |r| ==>
                   TruthyPositions(cell.items)[k] < |cell.items| && r[k] == Str(cell.items[TruthyPositions(cell.items)[k]])
    ensures cell.SyntaxOrValueError? ==>
              && (forall k :: 0 <= k < |r| ==> r[k] != [] && NoSpace(r[k]))
              && Concat(r) == NonSpace(cell.raw)
              && SplitsAs(cell.raw, r, Gaps(cell.raw))
  {
    match cell
    case Missing => []
    case ParsedList(items) =>
      KeptTokensSpec(items);
      KeptTokens(items)
    case ParsedOther => []
    case SyntaxOrValueError(raw) =>
      SplitTokensAreWords(raw);
      SplitKeepsNonSpace(raw);
      Split(raw)
    case UnexpectedError => []
  }

  /** A parsed list of non-empty strings comes back unchanged: the cell
      `"['a', 'b', 'c']"` gives `["a", "b", "c"]`. */
  lemma {:induction false} ParsedStringsKept(items: seq<Literal>, ws: seq<string>)
    requires |items| == |ws|
    requires forall k :: 0 <= k < |ws| ==> ws[k] != [] && items[k] == PyStr(ws[k])
    ensures SafeParseTokens(ParsedList(items)) == ws
  {
    StringsKept(items, ws);
  }

  lemma {:induction false} StringsKept(items: seq<Literal>, ws: seq<string>)
    requires |items| == |ws|
    requires forall k :: 0 <= k < |ws| ==> ws[k] != [] && items[k] == PyStr(ws[k])
    ensures KeptTokens(items) == ws
  {
    if ws != [] {
      var n := |ws| - 1;
      var front, last := items[..n], items[n];
      assert last == PyStr(ws[n]) && Truthy(last) && Str(last) == ws[n];
      StringsKept(front, ws[..n]);
      assert KeptTokens(items) == KeptTokens(front) + [Str(last)];
      assert ws == ws[..n] + [ws[n]];
    }
  }

  /** The falsy items (empty strings, zero, False, None) are exactly the ones dropped:
      a list made only of them parses to nothing. */
  lemma {:induction false} FalsyItemsDropped(items: seq<Literal>)
    requires forall k :: 0 <= k < |items| ==> !Truthy(items[k])
    ensures SafeParseTokens(ParsedList(items)) == []
  {
    if items != [] { FalsyItemsDropped(items[..|items| - 1]); }
  }

  /** On the fallback path the tokens are the only way to read the raw text as
      whitespace-free words separated by whitespace: `"a\tb"` gives `["a", "b"]`. */
  lemma FallbackTokensUnique(raw: string, ws: seq<string>, g: seq<string>)
    requires SplitsAs(raw, ws, g)
    ensures SafeParseTokens(SyntaxOrValueError(raw)) == ws
  {
    SplitUnique(raw, ws, g);
  }

  /** On the fallback path, joining the tokens with spaces and splitting again
      gives them back. */
  lemma FallbackTokensRoundTrip(raw: string)
    ensures Split(Join(SafeParseTokens(SyntaxOrValueError(raw)))) == SafeParseTokens(SyntaxOrValueError(raw))
  {
    SplitTokensAreWords(raw);
    SplitJoin(Split(raw));
  }
}
