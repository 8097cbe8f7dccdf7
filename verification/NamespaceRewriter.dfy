/** The rewriter that isolates the runs' names (`generate_factory_jcm.py`). Which characters besides ASCII letters, digits
    and the underscore count as word characters is a parameter. */
module NamespaceRewriter {
  import opened Decimals

  const CANONICAL_TOKENS: seq<string> := [
    "supervisor",
    "order_1", "order_2", "order_3", "order_4", "order_5",
    "station_1", "station_2", "station_3", "station_4", "station_5",
    "amr_1", "amr_2",
    "factory_ws",
    "factory_prosa_org", "factory_adacor_org",
    "adaptive_factory"
  ]

  type CharClass = char -> bool

  predicate IsAsciiWord(c: char) {
    'a' <= c <= 'z' || 'A' <= c <= 'Z' || '0' <= c <= '9' || c == '_'
  }

  ghost predicate IsWordClass(w: CharClass) {
    forall c | IsAsciiWord(c) :: w(c)
  }

  predicate WordLike(w: CharClass, s: string) {
    s != "" && AllWord(w, s)
  }

  predicate AllWord(w: CharClass, s: string) {
    forall i | 0 <= i < |s| :: w(s[i])
  }

  // ----- re.sub(r'\btoken\b', replacement, text)

  predicate WordAt(w: CharClass, text: string, i: int) {
    0 <= i < |text| && w(text[i])
  }

  /** A boundary between a word character and something else. */
  predicate BoundaryAt(w: CharClass, text: string, i: int) {
    WordAt(w, text, i - 1) != WordAt(w, text, i)
  }

  predicate MatchesAt(w: CharClass, text: string, token: string, i: nat) {
    i + |token| <= |text| && text[i..i + |token|] == token && BoundaryAt(w, text, i) && BoundaryAt(w, text, i + |token|)
  }

  /** The scan for matches from left to right, from position i on. */
  function Sub(w: CharClass, text: string, token: string, replacement: string, i: nat): string
    requires i <= |text| && token != ""
    decreases |text| - i
  {
    if i == |text| then ""
    else if MatchesAt(w, text, token, i) then replacement + Sub(w, text, token, replacement, i + |token|)
    else [text[i]] + Sub(w, text, token, replacement, i + 1)
  }

  // ----- maximal word runs

  datatype Piece = Word(word: string) | Separator(mark: char)

  /** The length of the word that the text starts with. */
  function RunLength(w: CharClass, text: string): (e: nat)
    ensures e <= |text| && AllWord(w, text[..e]) && (e < |text| ==> !w(text[e]))
  {
    if text != "" && w(text[0]) then
      var e := RunLength(w, text[1..]) + 1;
      assert forall k | 1 <= k < e :: text[k] == text[1..][..e - 1][k - 1];
      assert e < |text| ==> text[e] == text[1..][e - 1];
      e
    else 0
  }

  /** Maximal runs of word characters, and single other characters. */
  function Split(w: CharClass, text: string): seq<Piece> {
    if text == "" then []
    else if w(text[0]) then [Word(text[..RunLength(w, text)])] + Split(w, text[RunLength(w, text)..])
    else [Separator(text[0])] + Split(w, text[1..])
  }

  function TextOf(p: Piece): string {
    match p
    case Word(s) => s
    case Separator(c) => [c]
  }

  function Join(pieces: seq<Piece>): string {
    if pieces == [] then "" else TextOf(pieces[0]) + Join(pieces[1..])
  }

  /** Applies f to every word and leaves the separators alone. */
  function MapPieces(f: string -> string, pieces: seq<Piece>): (r: seq<Piece>)
    ensures |r| == |pieces|
  {
    if pieces == [] then []
    else [if pieces[0].Word? then Word(f(pieces[0].word)) else pieces[0]] + MapPieces(f, pieces[1..])
  }

  function MapWords(w: CharClass, f: string -> string, text: string): string {
    Join(MapPieces(f, Split(w, text)))
  }

  /** Splitting loses nothing. */
  lemma {:induction false} JoinSplit(w: CharClass, text: string)
    ensures Join(Split(w, text)) == text
  {
    if text != "" {
      var e := if w(text[0]) then RunLength(w, text) else 1;
      JoinSplit(w, text[e..]);
      assert text == text[..e] + text[e..];
      assert Split(w, text)[1..] == Split(w, text[e..]);
    }
  }

  /** Pieces as a split leaves them: words are runs of word characters, never two in a row. */
  predicate Normal(w: CharClass, pieces: seq<Piece>) {
    pieces == [] || (PieceOk(w, pieces[0]) && Normal(w, pieces[1..]) && !(pieces[0].Word? && |pieces| > 1 && pieces[1].Word?))
  }

  predicate PieceOk(w: CharClass, p: Piece) {
    match p
    case Word(s) => WordLike(w, s)
    case Separator(c) => !w(c)
  }

  lemma {:induction false} SplitIsNormal(w: CharClass, text: string)
    ensures Normal(w, Split(w, text))
  {
    if text != "" {
      var e := if w(text[0]) then RunLength(w, text) else 1;
      SplitIsNormal(w, text[e..]);
      assert Split(w, text)[1..] == Split(w, text[e..]);
    }
  }

  lemma {:induction false} RunLengthIs(w: CharClass, word: string, rest: string)
    requires AllWord(w, word) && (rest != "" ==> !w(rest[0]))
    ensures RunLength(w, word + rest) == |word|
  {
    if word != "" {
      assert (word + rest)[1..] == word[1..] + rest;
      RunLengthIs(w, word[1..], rest);
    } else {
      assert word + rest == rest;
    }
  }

  /** Splitting and joining are inverse on what a split can produce. */
  lemma {:induction false} SplitJoin(w: CharClass, pieces: seq<Piece>)
    requires Normal(w, pieces)
    ensures Split(w, Join(pieces)) == pieces
  {
    if pieces != [] {
      var first, rest := TextOf(pieces[0]), Join(pieces[1..]);
      SplitJoin(w, pieces[1..]);
      assert (first + rest)[|first|..] == rest && (first + rest)[..|first|] == first;
      match pieces[0]
      case Separator(c) =>
      case Word(s) =>
        assert rest != "" ==> !w(rest[0]) by {
          if |pieces| > 1 {
            assert PieceOk(w, pieces[1..][0]);
          }
        }
        RunLengthIs(w, s, rest);
    }
  }

  ghost predicate KeepsWords(w: CharClass, f: string -> string) {
    forall s | WordLike(w, s) :: WordLike(w, f(s))
  }

  lemma {:induction false} MapIsNormal(w: CharClass, f: string -> string, pieces: seq<Piece>)
    requires KeepsWords(w, f) && Normal(w, pieces)
    ensures Normal(w, MapPieces(f, pieces))
  {
    if pieces != [] {
      MapIsNormal(w, f, pieces[1..]);
      assert MapPieces(f, pieces)[1..] == MapPieces(f, pieces[1..]);
    }
  }

  /** Renaming words keeps the pieces apart: the words of the result are the images of the words. */
  lemma SplitOfMap(w: CharClass, f: string -> string, text: string)
    requires KeepsWords(w, f)
    ensures Split(w, MapWords(w, f, text)) == MapPieces(f, Split(w, text))
  {
    SplitIsNormal(w, text);
    MapIsNormal(w, f, Split(w, text));
    SplitJoin(w, MapPieces(f, Split(w, text)));
  }

  lemma {:induction false} MapTwice(f: string -> string, g: string -> string, h: string -> string, pieces: seq<Piece>)
    requires forall s :: h(s) == g(f(s))
    ensures MapPieces(g, MapPieces(f, pieces)) == MapPieces(h, pieces)
  {
    if pieces != [] {
      MapTwice(f, g, h, pieces[1..]);
      assert MapPieces(f, pieces)[1..] == MapPieces(f, pieces[1..]);
    }
  }

  // ----- one substitution renames exactly one word

  function Renames(token: string, name: string): string -> string {
    s => if s == token then name else s
  }

  predicate WordIn(w: CharClass, text: string, i: nat, e: nat)
    requires e <= |text|
  {
    forall k | i <= k < e :: w(text[k])
  }

  lemma NoMatchAt(w: CharClass, text: string, token: string, i: nat)
    requires i < |text| && WordLike(w, token) && (WordAt(w, text, i - 1) || !w(text[i]))
    ensures !MatchesAt(w, text, token, i)
  {
  }

  /** Inside a word there is no match: the scan copies the rest of the word. */
  lemma {:induction false} SubInsideWord(w: CharClass, text: string, token: string, name: string, i: nat, e: nat)
    requires 0 < i <= e <= |text| && WordLike(w, token) && w(text[i - 1]) && WordIn(w, text, i, e)
    ensures Sub(w, text, token, name, i) == text[i..e] + Sub(w, text, token, name, e)
    decreases e - i
  {
    if i < e {
      NoMatchAt(w, text, token, i);
      SubInsideWord(w, text, token, name, i + 1, e);
      FirstOf(text, i, e, Sub(w, text, token, name, e));
    }
  }

  lemma FirstOf(text: string, i: nat, e: nat, rest: string)
    requires i < e <= |text|
    ensures [text[i]] + (text[i + 1..e] + rest) == text[i..e] + rest
  {
    assert [text[i]] + text[i + 1..e] == text[i..e];
    Regroup([text[i]], text[i + 1..e], rest);
  }

  lemma Regroup(a: string, b: string, c: string)
    ensures a + (b + c) == (a + b) + c
  {
  }

  /** At the start of a word the token matches exactly when it is the whole word. */
  lemma MatchIsWholeWord(w: CharClass, text: string, token: string, i: nat, e: nat)
    requires i < e <= |text| && WordLike(w, token) && WordIn(w, text, i, e) && !WordAt(w, text, i - 1) && !WordAt(w, text, e)
    ensures MatchesAt(w, text, token, i) <==> text[i..e] == token
  {
    if MatchesAt(w, text, token, i) {
      var n := i + |token|;
      assert forall k | i <= k < n :: text[k] == text[i..n][k - i];
      assert w(text[n - 1]) && !WordAt(w, text, n);
    }
  }

  lemma SubOfWord(w: CharClass, text: string, token: string, name: string, i: nat, e: nat)
    requires i < e <= |text| && WordLike(w, token) && WordIn(w, text, i, e) && !WordAt(w, text, i - 1) && !WordAt(w, text, e)
    ensures Sub(w, text, token, name, i) == Renames(token, name)(text[i..e]) + Sub(w, text, token, name, e)
  {
    MatchIsWholeWord(w, text, token, i, e);
    if text[i..e] != token {
      SubInsideWord(w, text, token, name, i + 1, e);
      FirstOf(text, i, e, Sub(w, text, token, name, e));
    }
  }

  lemma SplitOfWord(w: CharClass, text: string, i: nat) returns (e: nat)
    requires i < |text| && w(text[i])
    ensures i < e <= |text| && WordIn(w, text, i, e) && !WordAt(w, text, e)
    ensures Split(w, text[i..]) == [Word(text[i..e])] + Split(w, text[e..])
  {
    var rest := text[i..];
    var n := RunLength(w, rest);
    e := i + n;
    assert rest[..n] == text[i..e] && rest[n..] == text[e..];
    assert forall k | i <= k < e :: text[k] == rest[..n][k - i];
    assert e < |text| ==> text[e] == rest[n];
  }

  /** The scan is the word map that renames the token. */
  lemma {:induction false} SubIsMap(w: CharClass, text: string, token: string, name: string, i: nat)
    requires i <= |text| && WordLike(w, token) && !(WordAt(w, text, i - 1) && WordAt(w, text, i))
    ensures Sub(w, text, token, name, i) == Join(MapPieces(Renames(token, name), Split(w, text[i..])))
    decreases |text| - i
  {
    if i < |text| && w(text[i]) {
      var e := SplitOfWord(w, text, i);
      SubIsMap(w, text, token, name, e);
      SubOfWord(w, text, token, name, i, e);
      ConsPiece(Renames(token, name), Word(text[i..e]), Split(w, text[e..]));
    } else if i < |text| {
      SubIsMap(w, text, token, name, i + 1);
      NoMatchAt(w, text, token, i);
      assert text[i..][1..] == text[i + 1..];
      ConsPiece(Renames(token, name), Separator(text[i]), Split(w, text[i + 1..]));
    }
  }

  lemma ConsPiece(f: string -> string, p: Piece, rest: seq<Piece>)
    ensures Join(MapPieces(f, [p] + rest)) == (if p.Word? then f(p.word) else [p.mark]) + Join(MapPieces(f, rest))
  {
    assert ([p] + rest)[1..] == rest;
  }

  // ----- the names of a run

  function Name(token: string, runId: nat): string {
    token + "_" + Decimal(runId)
  }

  /** The names of different tokens or different runs never coincide. */
  lemma NamesAreDistinct(t: string, a: nat, u: string, b: nat)
    ensures Name(t, a) == Name(u, b) <==> t == u && a == b
  {
    DecimalDigits(a);
    DecimalDigits(b);
    var m, n := Name(t, a), Name(u, b);
    if m == n {
      assert m[|t|] == '_' && n[|u|] == '_';
      assert t == m[..|t|] && u == n[..|t|];
      assert Decimal(a) == m[|t| + 1..] && Decimal(b) == n[|t| + 1..];
      DecimalIsInjective(a, b);
    }
  }

  lemma NameCut(t: string, runId: nat, u: string)
    requires Name(t, runId) == u
    ensures |u| >= 2 && IsDigit(u[|u| - 1]) && (!IsDigit(u[|u| - 2]) ==> t == u[..|u| - 2])
  {
    DecimalDigits(runId);
    var d := Decimal(runId);
    assert u[|u| - 1] == d[|d| - 1];
    assert |d| >= 2 ==> u[|u| - 2] == d[|d| - 2];
  }

  /** Tokens end in at most one digit, and what stands before the underscore is then not a token itself. */
  lemma DigitsOfTokens(u: string)
    requires u in CANONICAL_TOKENS
    ensures |u| >= 2 && (IsDigit(u[|u| - 1]) ==> !IsDigit(u[|u| - 2]) && u[..|u| - 2] !in CANONICAL_TOKENS)
  {
    if IsDigit(u[|u| - 1]) {
      assert u[0] == 'o' ==> u[..|u| - 2] == "order";
      assert u[0] == 's' ==> u[..|u| - 2] == "station";
      assert u[0] == 'a' ==> u[..|u| - 2] == "amr";
    }
  }

  /** So no renamed word is a token again. */
  lemma TokensAreNotNames(t: string, u: string, runId: nat)
    requires t in CANONICAL_TOKENS && u in CANONICAL_TOKENS
    ensures Name(t, runId) != u
  {
    if Name(t, runId) == u {
      NameCut(t, runId, u);
      DigitsOfTokens(u);
    }
  }

  lemma TokenIsWord(w: CharClass, t: string)
    requires IsWordClass(w) && t in CANONICAL_TOKENS
    ensures WordLike(w, t)
  {
    assert forall i | 0 <= i < |t| :: IsAsciiWord(t[i]);
  }

  lemma NameIsWord(w: CharClass, t: string, runId: nat)
    requires IsWordClass(w) && WordLike(w, t)
    ensures WordLike(w, Name(t, runId))
  {
    DecimalDigits(runId);
    var d := Decimal(runId);
    forall i | 0 <= i < |d|
      ensures w(d[i])
    {
      assert IsDigit(d[i]) && IsAsciiWord(d[i]);
    }
    assert IsAsciiWord('_');
  }

  // ----- the loop over the tokens

  /** What the first k substitutions make of one word. */
  function WordAfter(tokens: seq<string>, runId: nat, k: nat, word: string): string
    requires k <= |tokens|
  {
    if k == 0 then word
    else Renames(tokens[k - 1], Name(tokens[k - 1], runId))(WordAfter(tokens, runId, k - 1, word))
  }

  /** The simultaneous substitution. */
  function Isolated(runId: nat): string -> string {
    word => if word in CANONICAL_TOKENS then Name(word, runId) else word
  }

  lemma {:induction false} WordAfterIs(tokens: seq<string>, runId: nat, k: nat, word: string)
    requires k <= |tokens| && forall t, u | t in tokens && u in tokens :: Name(t, runId) != u
    ensures WordAfter(tokens, runId, k, word) == if word in tokens[..k] then Name(word, runId) else word
  {
    if k > 0 {
      WordAfterIs(tokens, runId, k - 1, word);
      assert tokens[..k] == tokens[..k - 1] + [tokens[k - 1]];
      if word in tokens[..k - 1] {
        assert word in tokens && tokens[k - 1] in tokens;
        assert Name(word, runId) != tokens[k - 1];
      }
    }
  }

  function TextAfter(w: CharClass, runId: nat, k: nat, content: string): string
    requires k <= |CANONICAL_TOKENS|
  {
    if k == 0 then content
    else
      var token := CANONICAL_TOKENS[k - 1];
      assert forall t | t in CANONICAL_TOKENS :: t != "";
      Sub(w, TextAfter(w, runId, k - 1, content), token, Name(token, runId), 0)
  }

  method RewriteContent(w: CharClass, content: string, runId: nat) returns (rewritten: string)
    requires IsWordClass(w)
    ensures rewritten == MapWords(w, Isolated(runId), content)
  {
    rewritten := content;
    for k := 0 to |CANONICAL_TOKENS|
      invariant rewritten == TextAfter(w, runId, k, content)
    {
      var token := CANONICAL_TOKENS[k];
      TokenIsWord(w, token);
      rewritten := Sub(w, rewritten, token, Name(token, runId), 0);
    }
    LoopIsSimultaneous(w, runId, content);
  }

  lemma {:induction false} TextAfterIsMap(w: CharClass, runId: nat, k: nat, content: string, f: string -> string)
    requires IsWordClass(w) && k <= |CANONICAL_TOKENS| && forall word :: f(word) == WordAfter(CANONICAL_TOKENS, runId, k, word)
    ensures TextAfter(w, runId, k, content) == MapWords(w, f, content) && KeepsWords(w, f)
  {
    if k == 0 {
      MapNothing(f, Split(w, content));
      JoinSplit(w, content);
    } else {
      var g := word => WordAfter(CANONICAL_TOKENS, runId, k - 1, word);
      var token := CANONICAL_TOKENS[k - 1];
      TextAfterIsMap(w, runId, k - 1, content, g);
      TokenIsWord(w, token);
      NameIsWord(w, token, runId);
      var text := TextAfter(w, runId, k - 1, content);
      assert text[0..] == text;
      SubIsMap(w, text, token, Name(token, runId), 0);
      SplitOfMap(w, g, content);
      MapTwice(g, Renames(token, Name(token, runId)), f, Split(w, content));
    }
  }

  lemma {:induction false} MapNothing(f: string -> string, pieces: seq<Piece>)
    requires forall word :: f(word) == word
    ensures MapPieces(f, pieces) == pieces
  {
    if pieces != [] {
      MapNothing(f, pieces[1..]);
    }
  }

  /** Seventeen substitutions one after the other are one substitution of whole words. */
  lemma LoopIsSimultaneous(w: CharClass, runId: nat, content: string)
    requires IsWordClass(w)
    ensures TextAfter(w, runId, |CANONICAL_TOKENS|, content) == MapWords(w, Isolated(runId), content)
    ensures KeepsWords(w, Isolated(runId))
  {
    var n := |CANONICAL_TOKENS|;
    assert CANONICAL_TOKENS[..n] == CANONICAL_TOKENS;
    forall t, u | t in CANONICAL_TOKENS && u in CANONICAL_TOKENS
      ensures Name(t, runId) != u
    {
      TokensAreNotNames(t, u, runId);
    }
    forall word
      ensures Isolated(runId)(word) == WordAfter(CANONICAL_TOKENS, runId, n, word)
    {
      WordAfterIs(CANONICAL_TOKENS, runId, n, word);
    }
    TextAfterIsMap(w, runId, n, content, Isolated(runId));
  }

  // ----- re.search and the validation

  predicate FoundFrom(w: CharClass, text: string, token: string, i: nat) {
    exists k: nat | i <= k <= |text| :: MatchesAt(w, text, token, k)
  }

  /** A search succeeds exactly when the token is one of the words. */
  lemma {:induction false} FoundIff(w: CharClass, text: string, token: string, i: nat)
    requires i <= |text| && WordLike(w, token) && !(WordAt(w, text, i - 1) && WordAt(w, text, i))
    ensures FoundFrom(w, text, token, i) <==> Word(token) in Split(w, text[i..])
    decreases |text| - i
  {
    if i < |text| {
      var e := i + 1;
      if w(text[i]) {
        e := SplitOfWord(w, text, i);
        MatchIsWholeWord(w, text, token, i, e);
      } else {
        NoMatchAt(w, text, token, i);
        assert text[i..][1..] == text[i + 1..];
      }
      FoundIff(w, text, token, e);
      forall k: nat | i < k < e
        ensures !MatchesAt(w, text, token, k)
      {
        NoMatchAt(w, text, token, k);
      }
      FoundLater(w, text, token, i, e);
    }
  }

  lemma FoundLater(w: CharClass, text: string, token: string, i: nat, e: nat)
    requires i < e <= |text| && forall k: nat | i < k < e :: !MatchesAt(w, text, token, k)
    ensures FoundFrom(w, text, token, i) <==> MatchesAt(w, text, token, i) || FoundFrom(w, text, token, e)
  {
    if FoundFrom(w, text, token, i) {
      var k: nat :| i <= k <= |text| && MatchesAt(w, text, token, k);
    }
  }

  method ValidateAsl(w: CharClass, content: string) returns (ok: bool)
    ensures ok <==> forall token | token in CANONICAL_TOKENS :: !FoundFrom(w, content, token, 0)
  {
    for k := 0 to |CANONICAL_TOKENS|
      invariant forall i | 0 <= i < k :: !FoundFrom(w, content, CANONICAL_TOKENS[i], 0)
    {
      if FoundFrom(w, content, CANONICAL_TOKENS[k], 0) {
        return false;
      }
    }
    ok := true;
  }

  lemma {:induction false} MappedWords(f: string -> string, pieces: seq<Piece>, v: string)
    ensures Word(v) in MapPieces(f, pieces) <==> exists u :: Word(u) in pieces && f(u) == v
  {
    if pieces != [] {
      MappedWords(f, pieces[1..], v);
      assert pieces == [pieces[0]] + pieces[1..];
      if pieces[0].Word? && f(pieces[0].word) == v {
        assert Word(pieces[0].word) in pieces;
      }
    }
  }

  /** The words of a rewritten text: renamed tokens of its own run, and what the text contained already. */
  lemma RewrittenWords(w: CharClass, runId: nat, content: string, v: string)
    requires IsWordClass(w)
    ensures Word(v) in Split(w, MapWords(w, Isolated(runId), content))
            <==> (Word(v) in Split(w, content) && v !in CANONICAL_TOKENS)
                 || (exists t :: t in CANONICAL_TOKENS && Word(t) in Split(w, content) && v == Name(t, runId))
  {
    LoopIsSimultaneous(w, runId, content);
    SplitOfMap(w, Isolated(runId), content);
    MappedWords(Isolated(runId), Split(w, content), v);
    if Word(v) in Split(w, content) && v !in CANONICAL_TOKENS {
      assert Isolated(runId)(v) == v;
    }
    if t :| t in CANONICAL_TOKENS && Word(t) in Split(w, content) && v == Name(t, runId) {
      assert Isolated(runId)(t) == v;
    }
  }

  /** The validation accepts every rewritten text. */
  lemma RewriteIsValid(w: CharClass, runId: nat, content: string, token: string)
    requires IsWordClass(w) && token in CANONICAL_TOKENS
    ensures !FoundFrom(w, MapWords(w, Isolated(runId), content), token, 0)
  {
    var text := MapWords(w, Isolated(runId), content);
    TokenIsWord(w, token);
    FoundIff(w, text, token, 0);
    assert text[0..] == text;
    RewrittenWords(w, runId, content, token);
    forall t | t in CANONICAL_TOKENS
      ensures Name(t, runId) != token
    {
      TokensAreNotNames(t, token, runId);
    }
  }

  /** Isolation: a rewritten text names an agent of another run exactly when it did so before the rewriting. */
  lemma RunsAreIsolatedIff(w: CharClass, runId: nat, content: string, token: string, other: nat)
    requires IsWordClass(w) && token in CANONICAL_TOKENS && other != runId
    ensures Word(Name(token, other)) in Split(w, MapWords(w, Isolated(runId), content))
            <==> Word(Name(token, other)) in Split(w, content)
  {
    var v := Name(token, other);
    RewrittenWords(w, runId, content, v);
    forall t | t in CANONICAL_TOKENS
      ensures Name(t, runId) != v && v != t
    {
      NamesAreDistinct(t, runId, token, other);
      TokensAreNotNames(token, t, other);
    }
  }

  /** Rewriting a second time, for any run, changes nothing. */
  lemma RewriteIsFinal(w: CharClass, runId: nat, again: nat, content: string)
    requires IsWordClass(w)
    ensures var text := MapWords(w, Isolated(runId), content); MapWords(w, Isolated(again), text) == text
  {
    var text := MapWords(w, Isolated(runId), content);
    forall v | v in CANONICAL_TOKENS
      ensures Word(v) !in Split(w, text)
    {
      TokenIsWord(w, v);
      RewriteIsValid(w, runId, content, v);
      FoundIff(w, text, v, 0);
      assert text[0..] == text;
    }
    NothingToRename(again, Split(w, text));
    JoinSplit(w, text);
  }

  lemma {:induction false} NothingToRename(runId: nat, pieces: seq<Piece>)
    requires forall v | v in CANONICAL_TOKENS :: Word(v) !in pieces
    ensures MapPieces(Isolated(runId), pieces) == pieces
  {
    if pieces != [] {
      assert pieces == [pieces[0]] + pieces[1..];
      NothingToRename(runId, pieces[1..]);
    }
  }

  /** The numbered agents that the renaming covers: five orders, five stations and two AMRs. */
  lemma NumberedTokens(k: nat)
    requires 1 <= k <= 5
    ensures CANONICAL_TOKENS[k] == "order_" + Decimal(k) && CANONICAL_TOKENS[5 + k] == "station_" + Decimal(k)
    ensures k <= 2 ==> CANONICAL_TOKENS[10 + k] == "amr_" + Decimal(k)
  {
    assert Decimal(k) == [Digit(k)];
  }
}
