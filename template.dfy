/**
 * `renderTemplate(tpl, data)`: a global replace of the pattern
 * `{{\s*(\w+)\s*}}` by `data[key]`, or by the empty string when the
 * lookup is `undefined`. The pattern is matched left to right; after a
 * match the scan resumes behind it, after a miss one character further.
 */
module Template {
  import opened Wrappers
  import opened JsString
  import opened JsObject

  /** One match of the placeholder pattern: the captured key and the index just past `}}`. */
  datatype Match = Match(key: string, end: nat)

  /** The scanner's view of a template: single characters kept as they are, and placeholders. */
  datatype Piece = Lit(c: char) | Hole(key: string, raw: string)

  /**
   * `s[i..e]` is `{{`, whitespace, the word `key`, whitespace, `}}`: the
   * text the pattern `{{\s*(\w+)\s*}}` matches, with `key` its capture.
   */
  ghost predicate PlaceholderAt(s: string, i: nat, e: nat, key: string) {
    && i + 4 <= e <= |s|
    && s[i] == '{' && s[i + 1] == '{' && s[e - 2] == '}' && s[e - 1] == '}'
    && exists a, b :: i + 2 <= a < b <= e - 2 && KeySpan(s, i, e, key, a, b)
  }

  /** Inside the braces of `s[i..e]`: whitespace up to `a`, the word `key` up to `b`, whitespace after. */
  ghost predicate KeySpan(s: string, i: nat, e: nat, key: string, a: nat, b: nat)
    requires i + 2 <= a < b <= e - 2 && e <= |s|
  {
    && s[a..b] == key
    && (forall k :: i + 2 <= k < a ==> IsSpace(s[k]))
    && (forall k :: a <= k < b ==> IsWordChar(s[k]))
    && (forall k :: b <= k < e - 2 ==> IsSpace(s[k]))
  }

  /** A whole text that is one placeholder. */
  ghost predicate IsPlaceholder(t: string, key: string) {
    PlaceholderAt(t, 0, |t|, key)
  }

  /** The first index at or after `i` that does not hold a word character. */
  function SkipWord(s: string, i: nat): (j: nat)
    requires i <= |s|
    ensures i <= j <= |s|
    ensures forall k :: i <= k < j ==> IsWordChar(s[k])
    ensures j < |s| ==> !IsWordChar(s[j])
    decreases |s| - i
  {
    if i < |s| && IsWordChar(s[i]) then SkipWord(s, i + 1) else i
  }

  /** The match of the placeholder pattern that starts at index `i`, if any. */
  function MatchAt(s: string, i: nat): (r: Option<Match>)
    requires i <= |s|
    ensures r.Some? ==> i + 5 <= r.value.end <= |s| && r.value.key != ""
  {
    if i + 2 <= |s| && s[i] == '{' && s[i + 1] == '{' then
      var a := SkipSpaces(s, i + 2);
      var b := SkipWord(s, a);
      var c := SkipSpaces(s, b);
      if a < b && c + 2 <= |s| && s[c] == '}' && s[c + 1] == '}' then Some(Match(s[a..b], c + 2))
      else None
    else None
  }

  /** What MatchAt finds is a placeholder. */
  lemma MatchAtSound(s: string, i: nat)
    requires i <= |s| && MatchAt(s, i).Some?
    ensures PlaceholderAt(s, i, MatchAt(s, i).value.end, MatchAt(s, i).value.key)
  {
    var a := SkipSpaces(s, i + 2);
    var b := SkipWord(s, a);
    var c := SkipSpaces(s, b);
    assert KeySpan(s, i, c + 2, s[a..b], a, b);
  }

  /** A placeholder starting at `i` is exactly what MatchAt finds there: matches are unique. */
  lemma MatchAtComplete(s: string, i: nat, e: nat, key: string)
    requires PlaceholderAt(s, i, e, key)
    ensures MatchAt(s, i) == Some(Match(key, e))
  {
    var a, b :| i + 2 <= a < b <= e - 2 && KeySpan(s, i, e, key, a, b);
    KeySpanSkips(s, i, e, key, a, b);
    MatchAtFromSkips(s, i, a, b, e);
  }

  /** MatchAt reads off the key and the end from where its skips land. */
  lemma MatchAtFromSkips(s: string, i: nat, a: nat, b: nat, e: nat)
    requires i + 2 <= a < b <= e - 2 && e <= |s|
    requires s[i] == '{' && s[i + 1] == '{' && s[e - 2] == '}' && s[e - 1] == '}'
    requires SkipSpaces(s, i + 2) == a && SkipWord(s, a) == b && SkipSpaces(s, b) == e - 2
    ensures MatchAt(s, i) == Some(Match(s[a..b], e))
  {
  }

  /** The scanner's three skips land on the borders of the key span. */
  lemma KeySpanSkips(s: string, i: nat, e: nat, key: string, a: nat, b: nat)
    requires i + 2 <= a < b <= e - 2 && e <= |s| && s[e - 2] == '}'
    requires KeySpan(s, i, e, key, a, b)
    ensures SkipSpaces(s, i + 2) == a && SkipWord(s, a) == b && SkipSpaces(s, b) == e - 2 && s[a..b] == key
  {
    assert IsWordChar(s[a]);
    WordCharIsNotSpace(s[a]);
    SkipSpacesAt(s, i + 2, a);
    assert !IsWordChar(s[b]) by {
      if b < e - 2 {
        assert IsSpace(s[b]);
      } else {
        assert s[b] == '}';
      }
    }
    SkipWordAt(s, a, b);
    assert !IsSpace(s[e - 2]) by {
      assert s[e - 2] == '}';
    }
    SkipSpacesAt(s, b, e - 2);
  }

  /** A placeholder inside a text is a placeholder on its own. */
  lemma PlaceholderSlice(s: string, i: nat, e: nat, key: string)
    requires PlaceholderAt(s, i, e, key)
    ensures IsPlaceholder(s[i..e], key)
  {
    var t := s[i..e];
    var a, b :| i + 2 <= a < b <= e - 2 && KeySpan(s, i, e, key, a, b);
    assert forall k :: 0 <= k < |t| ==> t[k] == s[i + k];
    assert t[a - i..b - i] == s[a..b];
    assert KeySpan(t, 0, |t|, key, a - i, b - i);
  }

  lemma SkipSpacesAt(s: string, i: nat, j: nat)
    requires i <= j <= |s|
    requires forall k :: i <= k < j ==> IsSpace(s[k])
    requires j < |s| ==> !IsSpace(s[j])
    ensures SkipSpaces(s, i) == j
  {
  }

  lemma SkipWordAt(s: string, i: nat, j: nat)
    requires i <= j <= |s|
    requires forall k :: i <= k < j ==> IsWordChar(s[k])
    requires j < |s| ==> !IsWordChar(s[j])
    ensures SkipWord(s, i) == j
  {
  }

  /** The left-to-right scan of `s` from index `i` into kept characters and placeholders. */
  function Scan(s: string, i: nat): (r: seq<Piece>)
    requires i <= |s|
    ensures |r| <= |s| - i
    ensures r == [] <==> i == |s|
    decreases |s| - i
  {
    if i == |s| then []
    else
      match MatchAt(s, i)
      case Some(m) => [Hole(m.key, s[i..m.end])] + Scan(s, m.end)
      case None => [Lit(s[i])] + Scan(s, i + 1)
  }

  /** The text a piece was read from. */
  function Text(p: Piece): string
  {
    match p
    case Lit(c) => [c]
    case Hole(_, raw) => raw
  }

  /** The text a sequence of pieces was read from. */
  function Join(ps: seq<Piece>): string
  {
    if ps == [] then "" else Text(ps[0]) + Join(ps[1..])
  }

  /** The text with each placeholder replaced by the value `value` gives its key. */
  function Fill(ps: seq<Piece>, value: string -> string): string
  {
    if ps == [] then ""
    else (match ps[0] case Lit(c) => [c] case Hole(k, _) => value(k)) + Fill(ps[1..], value)
  }

  /** The characters kept between the placeholders. */
  function Literals(ps: seq<Piece>): string
  {
    if ps == [] then ""
    else (match ps[0] case Lit(c) => [c] case Hole(_, _) => "") + Literals(ps[1..])
  }

  /** The replacement as written: `data[key] !== undefined ? data[key] : ''`, converted to text. */
  function ReplacementAsWritten(data: map<string, string>, key: string): string
  {
    var v := Get(data, key);
    if v == Undefined then "" else ToText(v)
  }

  /** The replacement as intended: the value of an own key of `data`, else the empty string. */
  function Replacement(data: map<string, string>, key: string): string
  {
    if key in data then data[key] else ""
  }

  /**
   * `renderTemplate` as written: inherited members of the data object count
   * as present. With `{}` the placeholders are deleted only when none of
   * them names a member of `Object.prototype`.
   */
  function RenderAsWritten(tpl: string, data: map<string, string>): (r: string)
    ensures data == map[] && (forall p :: p in Scan(tpl, 0) && p.Hole? ==> p.key !in PrototypeNames)
            ==> r == Literals(Scan(tpl, 0))
  {
    FillAsWrittenEmptyIsLiterals(Scan(tpl, 0));
    Fill(Scan(tpl, 0), k => ReplacementAsWritten(data, k))
  }

  /** `renderTemplate` as intended: only the data's own keys are substituted, so `{}` deletes every placeholder. */
  function RenderTemplate(tpl: string, data: map<string, string>): (r: string)
    ensures data == map[] ==> r == Literals(Scan(tpl, 0))
  {
    FillEmptyIsLiterals(Scan(tpl, 0));
    Fill(Scan(tpl, 0), k => Replacement(data, k))
  }

  /** One step of the scan: the piece read at `i` spans `s[i..next]`, and a hole there is a placeholder. */
  lemma ScanStep(s: string, i: nat) returns (p: Piece, next: nat)
    requires i < |s|
    ensures i < next <= |s|
    ensures Scan(s, i) == [p] + Scan(s, next)
    ensures Text(p) == s[i..next]
    ensures p.Hole? ==> PlaceholderAt(s, i, next, p.key)
  {
    match MatchAt(s, i)
    case Some(m) =>
      MatchAtSound(s, i);
      p, next := Hole(m.key, s[i..m.end]), m.end;
    case None =>
      p, next := Lit(s[i]), i + 1;
      assert [s[i]] == s[i..i + 1];
  }

  /** A piece read from `s[i..next]` followed by pieces spelling `s[next..]` spell `s[i..]`. */
  lemma JoinCons(s: string, i: nat, next: nat, p: Piece, ps: seq<Piece>)
    requires i <= next <= |s| && Text(p) == s[i..next] && Join(ps) == s[next..]
    ensures Join([p] + ps) == s[i..]
  {
    assert ([p] + ps)[1..] == ps;
    assert s[i..] == s[i..next] + s[next..];
  }

  /** Scanning loses nothing: the pieces spell out the text they were read from. */
  lemma {:induction false} ScanRoundTrip(s: string, i: nat)
    requires i <= |s|
    ensures Join(Scan(s, i)) == s[i..]
    decreases |s| - i
  {
    if i < |s| {
      var p, next := ScanStep(s, i);
      ScanRoundTrip(s, next);
      JoinCons(s, i, next, p, Scan(s, next));
    }
  }

  /** Every hole the scan reports is a placeholder for its key. */
  lemma {:induction false} ScanHolesArePlaceholders(s: string, i: nat)
    requires i <= |s|
    ensures forall p :: p in Scan(s, i) && p.Hole? ==> IsPlaceholder(p.raw, p.key)
    decreases |s| - i
  {
    if i < |s| {
      var p, next := ScanStep(s, i);
      if p.Hole? {
        PlaceholderSlice(s, i, next, p.key);
      }
      ScanHolesArePlaceholders(s, next);
    }
  }

  /** Below a text without any placeholder, filling the scan gives back the text. */
  lemma {:induction false} FillScanWithoutPlaceholders(s: string, i: nat, value: string -> string)
    requires i <= |s|
    requires forall j, e, k :: i <= j <= e <= |s| ==> !PlaceholderAt(s, j, e, k)
    ensures Fill(Scan(s, i), value) == s[i..]
    decreases |s| - i
  {
    if i < |s| {
      if MatchAt(s, i).Some? {
        MatchAtSound(s, i);
        assert false;
      }
      var ps := Scan(s, i);
      assert ps == [Lit(s[i])] + Scan(s, i + 1);
      assert ps[1..] == Scan(s, i + 1);
      FillScanWithoutPlaceholders(s, i + 1, value);
      assert s[i..] == [s[i]] + s[i + 1..];
    }
  }

  /** A text containing no placeholder is returned unchanged, whatever the data. */
  lemma RenderWithoutPlaceholders(s: string, data: map<string, string>)
    requires forall j, e, k :: 0 <= j <= e <= |s| ==> !PlaceholderAt(s, j, e, k)
    ensures RenderTemplate(s, data) == s
    ensures RenderAsWritten(s, data) == s
  {
    FillScanWithoutPlaceholders(s, 0, k => Replacement(data, k));
    FillScanWithoutPlaceholders(s, 0, k => ReplacementAsWritten(data, k));
  }

  lemma {:induction false} FillEmptyIsLiterals(ps: seq<Piece>)
    ensures Fill(ps, k => Replacement(map[], k)) == Literals(ps)
  {
    if ps != [] {
      FillEmptyIsLiterals(ps[1..]);
    }
  }

  lemma FillAsWrittenEmptyIsLiterals(ps: seq<Piece>)
    ensures (forall p :: p in ps && p.Hole? ==> p.key !in PrototypeNames)
            ==> Fill(ps, k => ReplacementAsWritten(map[], k)) == Literals(ps)
  {
    if forall p :: p in ps && p.Hole? ==> p.key !in PrototypeNames {
      forall p | p in ps && p.Hole?
        ensures ReplacementAsWritten(map[], p.key) == Replacement(map[], p.key)
      {
        AsWrittenEmptyOffPrototype(p.key);
      }
      FillAgrees(ps, k => ReplacementAsWritten(map[], k), k => Replacement(map[], k));
      FillEmptyIsLiterals(ps);
    }
  }

  lemma AsWrittenEmptyOffPrototype(key: string)
    requires key !in PrototypeNames
    ensures ReplacementAsWritten(map[], key) == ""
  {
  }

  /**
   * With an empty mapping every placeholder the scan finds is deleted and
   * every other character is kept: the result is the template's text with
   * the placeholder spans cut out.
   */
  lemma EmptyMappingDeletesPlaceholders(tpl: string)
    ensures Join(Scan(tpl, 0)) == tpl
    ensures RenderTemplate(tpl, map[]) == Literals(Scan(tpl, 0))
    ensures forall p :: p in Scan(tpl, 0) && p.Hole? ==> IsPlaceholder(p.raw, p.key)
  {
    ScanRoundTrip(tpl, 0);
    ScanHolesArePlaceholders(tpl, 0);
  }

  lemma {:induction false} FillAgrees(ps: seq<Piece>, f: string -> string, g: string -> string)
    requires forall p :: p in ps && p.Hole? ==> f(p.key) == g(p.key)
    ensures Fill(ps, f) == Fill(ps, g)
  {
    if ps != [] {
      FillAgrees(ps[1..], f, g);
    }
  }

  /** As written and as intended agree unless a placeholder names a member of `Object.prototype`. */
  lemma AsWrittenAgreesOffPrototypeNames(tpl: string, data: map<string, string>)
    requires forall p :: p in Scan(tpl, 0) && p.Hole? ==> p.key !in PrototypeNames
    ensures RenderAsWritten(tpl, data) == RenderTemplate(tpl, data)
  {
    FillAgrees(Scan(tpl, 0), k => ReplacementAsWritten(data, k), k => Replacement(data, k));
  }

  /**
   * As written, `{{constructor}}`, `{{toString}}`, `{{__proto__}}` and the
   * other member names of `Object.prototype` survive an empty mapping:
   * `{}[key]` is the inherited member, so it is printed instead of deleted.
   * As intended such a placeholder is deleted like any other.
   */
  lemma PrototypeKeySurvivesEmptyMapping(key: string)
    requires key in PrototypeNames
    ensures RenderAsWritten("{{" + key + "}}", map[]) != ""
    ensures RenderTemplate("{{" + key + "}}", map[]) == ""
  {
    PrototypeNamesAreWords(key);
    BracedWordIsPlaceholder(key);
    ScanWholePlaceholder("{{" + key + "}}", key);
    InheritedKeyIsPrinted(key);
    FillOneHole(key, "{{" + key + "}}", k => ReplacementAsWritten(map[], k));
    FillOneHole(key, "{{" + key + "}}", k => Replacement(map[], k));
  }

  lemma FillOneHole(key: string, raw: string, value: string -> string)
    ensures Fill([Hole(key, raw)], value) == value(key)
  {
    assert [Hole(key, raw)][1..] == [];
  }

  lemma InheritedKeyIsPrinted(key: string)
    requires key in PrototypeNames
    ensures ReplacementAsWritten(map[], key) != ""
  {
  }

  /** A text that is one placeholder is scanned as one hole. */
  lemma ScanWholePlaceholder(s: string, key: string)
    requires IsPlaceholder(s, key)
    ensures Scan(s, 0) == [Hole(key, s)]
  {
    ScanAtPlaceholder(s, 0, |s|, key);
    assert s[0..|s|] == s;
  }

  /** `{{key}}` for a word `key` is a placeholder. */
  lemma BracedWordIsPlaceholder(key: string)
    requires key != [] && forall k :: 0 <= k < |key| ==> IsWordChar(key[k])
    ensures IsPlaceholder("{{" + key + "}}", key)
  {
    var s := "{{" + key + "}}";
    assert s[2..2 + |key|] == key;
    assert KeySpan(s, 0, |s|, key, 2, 2 + |key|);
  }

  /** Where a placeholder starts, the scan reads it as one hole and resumes behind it. */
  lemma ScanAtPlaceholder(s: string, i: nat, e: nat, key: string)
    requires PlaceholderAt(s, i, e, key)
    ensures Scan(s, i) == [Hole(key, s[i..e])] + Scan(s, e)
  {
    MatchAtComplete(s, i, e, key);
  }

  /** Where no placeholder starts, the scan keeps the character and moves one further. */
  lemma ScanAtLiteral(s: string, i: nat)
    requires i < |s| && MatchAt(s, i).None?
    ensures Scan(s, i) == [Lit(s[i])] + Scan(s, i + 1)
  {
  }

  lemma PrototypeNamesAreWords(key: string)
    requires key in PrototypeNames
    ensures key != [] && forall k :: 0 <= k < |key| ==> IsWordChar(key[k])
  {
  }

  /** `a{{ k }}b` reads as a kept character, one placeholder for `k`, and a kept character. */
  lemma ScanExample()
    ensures var ps := Scan("a{{ k }}b", 0);
      |ps| == 3 && ps[0] == Lit('a') && ps[1].Hole? && ps[1].key == "k" && ps[2] == Lit('b')
  {
    var s := "a{{ k }}b";
    ExampleHole();
    ExampleNoMatch(0);
    ExampleNoMatch(8);
    ScanAtLiteral(s, 0);
    ScanAtPlaceholder(s, 1, 8, "k");
    ScanAtLiteral(s, 8);
  }

  lemma ExampleHole()
    ensures PlaceholderAt("a{{ k }}b", 1, 8, "k")
  {
    assert KeySpan("a{{ k }}b", 1, 8, "k", 4, 5);
  }

  lemma ExampleNoMatch(i: nat)
    requires i == 0 || i == 8
    ensures MatchAt("a{{ k }}b", i).None?
  {
  }

  /** A placeholder is replaced by its value, with the text around it kept. */
  lemma SubstitutesValue()
    ensures RenderTemplate("a{{ k }}b", map["k" := "V"]) == "aVb"
    ensures RenderTemplate("a{{ k }}b", map[]) == "ab"
  {
    ScanExample();
  }
}
