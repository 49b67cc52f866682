/** The JavaScript string operations the email migrations use. */
module Strings {

  /** replace(/\r\n|\r/g, '\n'). */
  function Normalize(t: string): string {
    if t == "" then ""
    else if t[0] == '\r' then "\n" + Normalize(if |t| > 1 && t[1] == '\n' then t[2..] else t[1..])
    else [t[0]] + Normalize(t[1..])
  }

  /** t.split(sep): cuts at the leftmost separator, then in what is left. */
  function Split(t: string, sep: string): (parts: seq<string>)
    requires sep != ""
    ensures parts != []
    decreases |t|
  {
    if |t| < |sep| then [t]
    else if sep <= t then [""] + Split(t[|sep|..], sep)
    else
      var rest := Split(t[1..], sep);
      [[t[0]] + rest[0]] + rest[1..]
  }

  function Join(parts: seq<string>, sep: string): string {
    if parts == [] then ""
    else if |parts| == 1 then parts[0]
    else parts[0] + sep + Join(parts[1..], sep)
  }

  predicate Contains(t: string, sep: string) {
    exists i :: 0 <= i <= |t| && sep <= t[i..]
  }

  /** The characters String.prototype.trim removes. */
  predicate IsSpace(c: char) {
    || '\t' <= c <= '\r' || c == ' '
    || c in {'\U{A0}', '\U{1680}', '\U{2028}', '\U{2029}', '\U{202F}', '\U{205F}', '\U{3000}', '\U{FEFF}'}
    || '\U{2000}' <= c <= '\U{200A}'
  }

  /** t.trim() === ''. */
  predicate IsBlank(t: string) {
    forall i :: 0 <= i < |t| ==> IsSpace(t[i])
  }

  /** String(n). */
  function Decimal(n: nat): (t: string)
    ensures t != ""
  {
    if n < 10 then [Digit(n)] else Decimal(n / 10) + [Digit(n % 10)]
  }

  function Digit(n: nat): char
    requires n < 10
  {
    '0' + n as char
  }

  // ---- Normalize ----

  lemma {:induction false} NormalizeHasNoCR(t: string)
    ensures '\r' !in Normalize(t)
  {
    if t != "" {
      NormalizeHasNoCR(if t[0] == '\r' && |t| > 1 && t[1] == '\n' then t[2..] else t[1..]);
    }
  }

  /** Exactly the texts without a carriage return are left alone. */
  lemma {:induction false} NormalizeIsIdentityWithoutCR(t: string)
    ensures Normalize(t) == t <==> '\r' !in t
  {
    if t == "" {
    } else if t[0] == '\r' {
      assert Normalize(t)[0] == '\n';
    } else {
      NormalizeIsIdentityWithoutCR(t[1..]);
      assert t == [t[0]] + t[1..];
      assert Normalize(t)[1..] == Normalize(t[1..]);
    }
  }

  lemma ConcatAssociates<T>(a: seq<T>, b: seq<T>, c: seq<T>)
    ensures a + (b + c) == (a + b) + c
  {
  }

  // ---- Join after Split ----

  lemma JoinEmptyFirst(rest: seq<string>, sep: string)
    requires rest != []
    ensures Join([""] + rest, sep) == sep + Join(rest, sep)
  {
    assert ([""] + rest)[1..] == rest;
  }

  lemma JoinLongerFirst(c: char, parts: seq<string>, sep: string)
    requires parts != []
    ensures Join([[c] + parts[0]] + parts[1..], sep) == [c] + Join(parts, sep)
  {
    var longer := [[c] + parts[0]] + parts[1..];
    assert longer[1..] == parts[1..];
    if |parts| > 1 {
      var tail := Join(parts[1..], sep);
      assert ([c] + parts[0]) + sep + tail == [c] + (parts[0] + sep + tail);
    }
  }

  lemma {:induction false} JoinSplit(t: string, sep: string)
    requires sep != ""
    ensures Join(Split(t, sep), sep) == t
    decreases |t|
  {
    if |t| < |sep| {
    } else if sep <= t {
      JoinSplit(t[|sep|..], sep);
      JoinEmptyFirst(Split(t[|sep|..], sep), sep);
    } else {
      JoinSplit(t[1..], sep);
      JoinLongerFirst(t[0], Split(t[1..], sep), sep);
    }
  }

  // ---- Split after Join, for blank lines ----

  const BLANK_LINE := "\n\n"

  /** A part that a split at blank lines can return; only the last one may end in a newline. */
  predicate IsPart(p: string, last: bool) {
    !Contains(p, BLANK_LINE) && (last || p == "" || p[|p| - 1] != '\n')
  }

  predicate AreParts(parts: seq<string>) {
    forall i :: 0 <= i < |parts| ==> IsPart(parts[i], i == |parts| - 1)
  }

  lemma TailContains(p: string, sep: string)
    requires p != "" && Contains(p[1..], sep)
    ensures Contains(p, sep)
  {
    var i :| 0 <= i <= |p[1..]| && sep <= p[1..][i..];
    assert p[1..][i..] == p[i + 1..];
  }

  lemma PartGoesOn(p: string, rest: string)
    requires IsPart(p, false) && p != ""
    ensures IsPart(p[1..], false) && !(BLANK_LINE <= p + BLANK_LINE + rest)
  {
    var t := p + BLANK_LINE + rest;
    assert p[0..] == p;
    if Contains(p[1..], BLANK_LINE) {
      TailContains(p, BLANK_LINE);
    }
    if |p| == 1 {
      assert t[0] != '\n';
    } else {
      assert !(BLANK_LINE <= p);
      assert t[0] == p[0] && t[1] == p[1];
    }
  }

  /** Splitting a part followed by a blank line finds that blank line first. */
  lemma {:induction false} SplitAfterPart(p: string, rest: string)
    requires IsPart(p, false)
    ensures Split(p + BLANK_LINE + rest, BLANK_LINE) == [p] + Split(rest, BLANK_LINE)
  {
    var t := p + BLANK_LINE + rest;
    if p == "" {
      assert t[|BLANK_LINE|..] == rest;
    } else {
      PartGoesOn(p, rest);
      SplitAfterPart(p[1..], rest);
      assert t[1..] == p[1..] + BLANK_LINE + rest;
      assert [p[0]] + p[1..] == p;
    }
  }

  lemma {:induction false} SplitPart(p: string)
    requires IsPart(p, true)
    ensures Split(p, BLANK_LINE) == [p]
  {
    if |p| >= 2 {
      assert p[0..] == p;
      if Contains(p[1..], BLANK_LINE) {
        TailContains(p, BLANK_LINE);
      }
      SplitPart(p[1..]);
      assert [p[0]] + p[1..] == p;
    }
  }

  lemma {:induction false} SplitJoin(parts: seq<string>)
    requires parts != [] && AreParts(parts)
    ensures Split(Join(parts, BLANK_LINE), BLANK_LINE) == parts
  {
    if |parts| == 1 {
      SplitPart(parts[0]);
    } else {
      SplitJoin(parts[1..]);
      SplitAfterPart(parts[0], Join(parts[1..], BLANK_LINE));
      assert parts == [parts[0]] + parts[1..];
    }
  }

  /** What a split at blank lines returns are parts. */
  lemma {:induction false} SplitGivesParts(t: string)
    ensures AreParts(Split(t, BLANK_LINE))
    ensures forall i :: 0 <= i < |Split(t, BLANK_LINE)| ==> forall c :: c in Split(t, BLANK_LINE)[i] ==> c in t
    decreases |t|
  {
    var parts := Split(t, BLANK_LINE);
    if |t| < 2 {
    } else if BLANK_LINE <= t {
      var rest := Split(t[2..], BLANK_LINE);
      SplitGivesParts(t[2..]);
      assert forall i :: 1 <= i < |parts| ==> parts[i] == rest[i - 1];
    } else {
      var rest := Split(t[1..], BLANK_LINE);
      SplitGivesParts(t[1..]);
      assert forall i :: 1 <= i < |parts| ==> parts[i] == rest[i];
      FirstPartStays(t);
    }
  }

  lemma FirstPartStays(t: string)
    requires |t| >= 2 && !(BLANK_LINE <= t)
    requires AreParts(Split(t[1..], BLANK_LINE))
    ensures var rest := Split(t[1..], BLANK_LINE); IsPart([t[0]] + rest[0], |rest| == 1)
  {
    var rest := Split(t[1..], BLANK_LINE);
    var p := [t[0]] + rest[0];
    SplitStartsText(t[1..]);
    forall i | 0 <= i <= |p|
      ensures !(BLANK_LINE <= p[i..])
    {
      if i > 0 {
        assert p[i..] == rest[0][i - 1..];
      }
    }
  }

  /** The first part starts the text; an empty one before another part means the separator does. */
  lemma SplitStartsText(t: string)
    requires t != ""
    ensures var parts := Split(t, BLANK_LINE);
            if parts[0] == "" then BLANK_LINE <= t else parts[0][0] == t[0]
  {
  }
}
