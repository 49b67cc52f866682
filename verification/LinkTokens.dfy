/** The token pattern of migration 1767225840000, {{ name }}, and the scan of a text for tokens with a known name. */
module LinkTokens {
  import opened Options
  import opened Strings

  type Links = map<string, string>

  datatype Token = Token(name: string, end: nat)

  predicate IsNameChar(c: char) {
    'a' <= c <= 'z' || 'A' <= c <= 'Z' || '0' <= c <= '9' || c == '_' || c == '.'
  }

  /** The first index from `i` on that holds no white space. */
  function SkipSpaces(t: string, i: nat): (j: nat)
    requires i <= |t|
    ensures i <= j <= |t|
    ensures forall k :: i <= k < j ==> IsSpace(t[k])
    ensures j < |t| ==> !IsSpace(t[j])
    decreases |t| - i
  {
    if i < |t| && IsSpace(t[i]) then SkipSpaces(t, i + 1) else i
  }

  function SkipName(t: string, i: nat): (j: nat)
    requires i <= |t|
    ensures i <= j <= |t|
    ensures forall k :: i <= k < j ==> IsNameChar(t[k])
    ensures j < |t| ==> !IsNameChar(t[j])
    decreases |t| - i
  {
    if i < |t| && IsNameChar(t[i]) then SkipName(t, i + 1) else i
  }

  /** A match of the pattern starting at `i`. */
  function MatchAt(t: string, i: nat): (m: Option<Token>)
    requires i <= |t|
    ensures m.Some? ==> i + 4 < m.value.end <= |t|
  {
    if !(i + 2 <= |t| && t[i] == '{' && t[i + 1] == '{') then None
    else
      var a := SkipSpaces(t, i + 2);
      var b := SkipName(t, a);
      var c := SkipSpaces(t, b);
      if a < b && c + 2 <= |t| && t[c] == '}' && t[c + 1] == '}' then Some(Token(t[a..b], c + 2)) else None
  }

  /** A token as a text: braces, white space, a name, white space, braces. */
  ghost predicate IsTokenText(raw: string, name: string) {
    exists before, after :: TokenParts(raw, before, name, after)
  }

  ghost predicate TokenParts(raw: string, before: string, name: string, after: string) {
    && raw == "{{" + before + name + after + "}}"
    && IsBlank(before) && IsBlank(after)
    && name != "" && forall k :: 0 <= k < |name| ==> IsNameChar(name[k])
  }

  lemma SpaceEndsAt(t: string, i: nat, j: nat)
    requires i <= j < |t| && (forall k :: i <= k < j ==> IsSpace(t[k])) && !IsSpace(t[j])
    ensures SkipSpaces(t, i) == j
  {
  }

  lemma NameEndsAt(t: string, i: nat, j: nat)
    requires i <= j < |t| && (forall k :: i <= k < j ==> IsNameChar(t[k])) && !IsNameChar(t[j])
    ensures SkipName(t, i) == j
  {
  }

  /** What MatchAt returns is a token. */
  lemma MatchIsToken(t: string, i: nat)
    requires i <= |t| && MatchAt(t, i).Some?
    ensures IsTokenText(t[i..MatchAt(t, i).value.end], MatchAt(t, i).value.name)
  {
    var a := SkipSpaces(t, i + 2);
    var b := SkipName(t, a);
    var c := SkipSpaces(t, b);
    PartsOfSlice(t, i, a, b, c);
    assert TokenParts(t[i..c + 2], t[i + 2..a], t[a..b], t[b..c]);
  }

  lemma PartsOfSlice(t: string, i: nat, a: nat, b: nat, c: nat)
    requires i + 2 <= a <= b <= c && c + 2 <= |t|
    requires t[i] == '{' && t[i + 1] == '{' && t[c] == '}' && t[c + 1] == '}'
    ensures t[i..c + 2] == "{{" + t[i + 2..a] + t[a..b] + t[b..c] + "}}"
  {
    assert t[i..i + 2] == "{{" && t[c..c + 2] == "}}";
    assert t[i..c + 2] == t[i..i + 2] + t[i + 2..a] + t[a..b] + t[b..c] + t[c..c + 2];
  }

  lemma MatchFromIndices(t: string, i: nat, a: nat, b: nat, c: nat)
    requires TokenBounds(t, i, a, b, c)
    ensures MatchAt(t, i) == Some(Token(t[a..b], c + 2))
  {
    SpaceEndsAt(t, i + 2, a);
    NameEndsAt(t, a, b);
    SpaceEndsAt(t, b, c);
  }

  /** A token text, character by character. */
  lemma TokenByIndex(raw: string, before: string, name: string, after: string)
    requires TokenParts(raw, before, name, after)
    ensures var a := 2 + |before|; var b := a + |name|; var c := b + |after|;
            && |raw| == c + 2 && a < b
            && raw[0] == '{' && raw[1] == '{' && raw[c] == '}' && raw[c + 1] == '}'
            && (forall k :: 2 <= k < a ==> IsSpace(raw[k]))
            && (forall k :: a <= k < b ==> IsNameChar(raw[k]))
            && (forall k :: b <= k < c ==> IsSpace(raw[k]))
            && raw[a..b] == name
  {
    var a := 2 + |before|;
    var b := a + |name|;
    assert forall k :: 2 <= k < a ==> raw[k] == before[k - 2];
    assert forall k :: a <= k < b ==> raw[k] == name[k - a];
    assert forall k :: b <= k < b + |after| ==> raw[k] == after[k - b];
  }

  /** `a`, `b` and `c` bound the name and the trailing white space of a token that starts at `i`. */
  ghost predicate TokenBounds(t: string, i: nat, a: nat, b: nat, c: nat) {
    && i + 2 <= a < b <= c && c + 2 <= |t|
    && t[i] == '{' && t[i + 1] == '{' && t[c] == '}' && t[c + 1] == '}'
    && (forall k :: i + 2 <= k < a ==> IsSpace(t[k]))
    && (forall k :: a <= k < b ==> IsNameChar(t[k]))
    && (forall k :: b <= k < c ==> IsSpace(t[k]))
  }

  lemma TokenInText(t: string, i: nat, end: nat, name: string) returns (a: nat, b: nat, c: nat)
    requires i <= end <= |t| && IsTokenText(t[i..end], name)
    ensures TokenBounds(t, i, a, b, c) && c + 2 == end && t[a..b] == name
  {
    var raw := t[i..end];
    var before, after :| TokenParts(raw, before, name, after);
    TokenByIndex(raw, before, name, after);
    a := i + 2 + |before|;
    b := a + |name|;
    c := b + |after|;
    assert forall k :: i <= k < end ==> t[k] == raw[k - i];
    SliceOfSlice(t, i, end, a, b);
  }

  /** Every token in the text is matched where it starts. */
  lemma TokenIsMatched(t: string, i: nat, end: nat, name: string)
    requires i <= end <= |t| && IsTokenText(t[i..end], name)
    ensures MatchAt(t, i) == Some(Token(name, end))
  {
    var a, b, c := TokenInText(t, i, end, name);
    MatchFromIndices(t, i, a, b, c);
  }

  /** No match starts strictly inside another: after its opening braces a match holds no brace but the closing ones. */
  lemma MatchesDoNotOverlap(t: string, i: nat, j: nat)
    requires i < j <= |t| && MatchAt(t, i).Some? && MatchAt(t, j).Some?
    ensures MatchAt(t, i).value.end <= j
  {
    var a := SkipSpaces(t, i + 2);
    var b := SkipName(t, a);
    var c := SkipSpaces(t, b);
    assert forall k :: i + 2 <= k < c + 2 ==> t[k] != '{';
  }

  /** A match lies in the text from wherever one cuts before it and after it. */
  lemma MatchInSlice(t: string, from: nat, to: nat, i: nat)
    requires from <= i <= to <= |t|
    ensures MatchAt(t[from..to], i - from).Some? <==> MatchAt(t, i).Some? && MatchAt(t, i).value.end <= to
    ensures MatchAt(t[from..to], i - from).Some? ==>
              MatchAt(t, i) == Some(Token(MatchAt(t[from..to], i - from).value.name, MatchAt(t[from..to], i - from).value.end + from))
  {
    var s := t[from..to];
    if MatchAt(s, i - from).Some? {
      SliceToWhole(t, from, to, i);
    }
    if MatchAt(t, i).Some? && MatchAt(t, i).value.end <= to {
      WholeToSlice(t, from, to, i);
    }
  }

  lemma SliceOfSlice(t: string, from: nat, to: nat, x: nat, y: nat)
    requires from <= x <= y <= to <= |t|
    ensures t[from..to][x - from..y - from] == t[x..y]
  {
    var slice := t[from..to];
    var left, right := slice[x - from..y - from], t[x..y];
    forall k | 0 <= k < y - x
      ensures left[k] == right[k]
    {
      assert slice[x - from + k] == t[x + k];
    }
  }

  lemma SliceToWhole(t: string, from: nat, to: nat, i: nat)
    requires from <= i <= to <= |t| && MatchAt(t[from..to], i - from).Some?
    ensures var m := MatchAt(t[from..to], i - from).value; MatchAt(t, i) == Some(Token(m.name, m.end + from))
  {
    var slice := t[from..to];
    var m := MatchEndsInside(slice, i - from);
    TokenOfSlice(t, from, to, i, m);
  }

  lemma MatchEndsInside(t: string, i: nat) returns (m: Token)
    requires i <= |t| && MatchAt(t, i).Some?
    ensures MatchAt(t, i) == Some(m) && i <= m.end <= |t| && IsTokenText(t[i..m.end], m.name)
  {
    m := MatchAt(t, i).value;
    MatchIsToken(t, i);
  }

  lemma TokenOfSlice(t: string, from: nat, to: nat, i: nat, m: Token)
    requires from <= i <= m.end + from <= to <= |t| && IsTokenText(t[from..to][i - from..m.end], m.name)
    ensures MatchAt(t, i) == Some(Token(m.name, m.end + from))
  {
    SliceOfSlice(t, from, to, i, m.end + from);
    TokenIsMatched(t, i, m.end + from, m.name);
  }

  lemma WholeToSlice(t: string, from: nat, to: nat, i: nat)
    requires from <= i <= to <= |t| && MatchAt(t, i).Some? && MatchAt(t, i).value.end <= to
    ensures MatchAt(t[from..to], i - from).Some?
  {
    var m := MatchAt(t, i).value;
    MatchIsToken(t, i);
    SliceOfSlice(t, from, to, i, m.end);
    TokenIsMatched(t[from..to], i - from, m.end - from, m.name);
  }

  // ---- Scanning ----

  /** No match starts in t[from..to]. */
  ghost predicate NoMatchBetween(t: string, from: nat, to: nat) {
    forall k :: from <= k < to && k <= |t| ==> MatchAt(t, k).None?
  }

  /** The next match at or after `i`, as matchAll finds it. */
  function NextMatch(t: string, i: nat): (m: Option<(nat, Token)>)
    requires i <= |t|
    ensures m.Some? ==> i <= m.value.0 < m.value.1.end <= |t| && MatchAt(t, m.value.0) == Some(m.value.1)
    decreases |t| - i
  {
    if MatchAt(t, i).Some? then Some((i, MatchAt(t, i).value))
    else if i == |t| then None
    else NextMatch(t, i + 1)
  }

  /** Nothing matches between `i` and the next match. */
  lemma {:induction false} NoMatchBefore(t: string, i: nat, k: nat)
    requires i <= k <= |t| && (NextMatch(t, i).Some? ==> k < NextMatch(t, i).value.0)
    ensures MatchAt(t, k).None?
    decreases |t| - i
  {
    if i < k {
      NoMatchBefore(t, i + 1, k);
    }
  }

  lemma NextMatchIsFirst(t: string, i: nat)
    requires i <= |t|
    ensures NoMatchBetween(t, i, if NextMatch(t, i).Some? then NextMatch(t, i).value.0 else |t| + 1)
  {
    var to := if NextMatch(t, i).Some? then NextMatch(t, i).value.0 else |t| + 1;
    forall k | i <= k < to
      ensures MatchAt(t, k).None?
    {
      NoMatchBefore(t, i, k);
    }
  }

  datatype Piece = Plain(text: string) | Link(name: string, raw: string)

  /** t[from..] cut at its known tokens, scanning from `pos`. */
  function Scan(t: string, links: Links, from: nat, pos: nat): (pieces: seq<Piece>)
    requires from <= pos <= |t|
    ensures pieces != []
    decreases |t| - pos
  {
    var m := NextMatch(t, pos);
    if m.None? then [Plain(t[from..])]
    else
      var (i, token) := m.value;
      if token.name !in links then Scan(t, links, from, token.end)
      else [Plain(t[from..i]), Link(token.name, t[i..token.end])] + Scan(t, links, token.end, token.end)
  }

  ghost predicate NoKnownToken(t: string, links: Links) {
    forall i :: 0 <= i <= |t| && MatchAt(t, i).Some? ==> MatchAt(t, i).value.name !in links
  }

  /** No known token starts in t[from..pos]. */
  ghost predicate ClearBetween(t: string, links: Links, from: nat, pos: nat)
    requires pos <= |t|
  {
    forall i :: from <= i < pos && MatchAt(t, i).Some? ==> MatchAt(t, i).value.name !in links
  }

  function RawText(pieces: seq<Piece>): string {
    if pieces == [] then ""
    else (if pieces[0].Plain? then pieces[0].text else pieces[0].raw) + RawText(pieces[1..])
  }

  /** The text with every known token written without inner white space. */
  function TightText(pieces: seq<Piece>): string {
    if pieces == [] then ""
    else (if pieces[0].Plain? then pieces[0].text else "{{" + pieces[0].name + "}}") + TightText(pieces[1..])
  }

  /** Plain pieces hold no known token; link pieces are known tokens. */
  ghost predicate Separates(pieces: seq<Piece>, links: Links) {
    forall p :: p in pieces ==>
      if p.Plain? then NoKnownToken(p.text, links) else p.name in links && IsTokenText(p.raw, p.name)
  }

  lemma PlainSlice(t: string, links: Links, from: nat, to: nat)
    requires from <= to <= |t| && ClearBetween(t, links, from, to)
    ensures NoKnownToken(t[from..to], links)
  {
    var s := t[from..to];
    forall k | 0 <= k <= |s| && MatchAt(s, k).Some?
      ensures MatchAt(s, k).value.name !in links
    {
      MatchInSlice(t, from, to, k + from);
    }
  }

  /** After a match the scan goes on at its end; nothing starts in between. */
  lemma ClearThroughMatch(t: string, links: Links, from: nat, i: nat)
    requires from <= i <= |t| && ClearBetween(t, links, from, i)
    requires MatchAt(t, i).Some? && MatchAt(t, i).value.name !in links
    ensures ClearBetween(t, links, from, MatchAt(t, i).value.end)
  {
    forall k | i < k < MatchAt(t, i).value.end
      ensures MatchAt(t, k).None?
    {
      if MatchAt(t, k).Some? {
        MatchesDoNotOverlap(t, i, k);
      }
    }
  }

  /** The scan loses nothing, finds every known token, and leaves none in the plain pieces. */
  lemma {:induction false} ScanSeparates(t: string, links: Links, from: nat, pos: nat)
    requires from <= pos <= |t| && ClearBetween(t, links, from, pos)
    ensures RawText(Scan(t, links, from, pos)) == t[from..]
    ensures Separates(Scan(t, links, from, pos), links)
    decreases |t| - pos
  {
    var m := NextMatch(t, pos);
    NextMatchIsFirst(t, pos);
    if m.None? {
      PlainSlice(t, links, from, |t|);
      assert t[from..|t|] == t[from..];
      SinglePiece(Plain(t[from..]));
    } else {
      var (i, token) := m.value;
      if token.name !in links {
        ClearThroughMatch(t, links, from, i);
        ScanSeparates(t, links, from, token.end);
      } else {
        PlainSlice(t, links, from, i);
        MatchIsToken(t, i);
        ScanSeparates(t, links, token.end, token.end);
        KnownTokenSeparates(t, links, from, i, token, Scan(t, links, token.end, token.end));
      }
    }
  }

  lemma KnownTokenSeparates(t: string, links: Links, from: nat, i: nat, token: Token, rest: seq<Piece>)
    requires from <= i <= token.end <= |t| && RawText(rest) == t[token.end..] && Separates(rest, links)
    requires NoKnownToken(t[from..i], links) && token.name in links && IsTokenText(t[i..token.end], token.name)
    ensures var pieces := [Plain(t[from..i]), Link(token.name, t[i..token.end])] + rest;
            RawText(pieces) == t[from..] && Separates(pieces, links)
  {
    TwoPieces(Plain(t[from..i]), Link(token.name, t[i..token.end]), rest);
    ThreeSlices(t, from, i, token.end);
  }

  lemma ThreeSlices(t: string, x: nat, y: nat, z: nat)
    requires x <= y <= z <= |t|
    ensures t[x..] == t[x..y] + t[y..z] + t[z..]
  {
  }

  lemma SinglePiece(p: Piece)
    ensures RawText([p]) == (if p.Plain? then p.text else p.raw)
    ensures TightText([p]) == (if p.Plain? then p.text else "{{" + p.name + "}}")
  {
    assert [p][1..] == [];
  }

  lemma TwoPieces(plain: Piece, link: Piece, rest: seq<Piece>)
    requires plain.Plain? && link.Link?
    ensures RawText([plain, link] + rest) == plain.text + link.raw + RawText(rest)
    ensures TightText([plain, link] + rest) == plain.text + ("{{" + link.name + "}}") + TightText(rest)
  {
    var all := [plain, link] + rest;
    assert all[1..] == [link] + rest;
    assert all[1..][1..] == rest;
  }

  /** A text without known tokens is one piece, and conversely. */
  lemma {:induction false} OnePieceExactlyWhen(t: string, links: Links, from: nat, pos: nat)
    requires from <= pos <= |t| && ClearBetween(t, links, from, pos)
    ensures |Scan(t, links, from, pos)| == 1 <==> ClearBetween(t, links, from, |t|)
    decreases |t| - pos
  {
    var m := NextMatch(t, pos);
    NextMatchIsFirst(t, pos);
    if m.Some? && m.value.1.name !in links {
      ClearThroughMatch(t, links, from, m.value.0);
      OnePieceExactlyWhen(t, links, from, m.value.1.end);
    }
  }

  lemma ClearMeansNoKnownToken(t: string, links: Links)
    ensures ClearBetween(t, links, 0, |t|) <==> NoKnownToken(t, links)
  {
    assert MatchAt(t, |t|).None?;
  }
}
