/**
 * The pattern compiler `get_regex_prog`: escape the keyword with the `_escape` table and lay it
 * out as `c1[^c1]*c2[^c2]*...cn`. The text is kept next to the literal characters the matcher
 * uses; `ParseRegex` reads the characters back from the text.
 */
module Regex {
  import opened Wrappers
  import opened Text
  import opened Matcher

  /** The keys of `_escape`: the characters that get a backslash in front. */
  predicate IsEscaped(c: char) {
    c in "^$.{}()[]\\/+"
  }

  function Escape(c: char): string {
    if IsEscaped(c) then ['\\', c] else [c]
  }

  /** "any run without `c`": the piece that follows every character but the last. */
  function Gap(c: char): string {
    "[^" + Escape(c) + "]*"
  }

  /** The regex text `get_regex_prog` builds from its (possibly lower-cased) keyword. */
  function RegexText(a: Atoms): (text: string)
    ensures |text| > 0
    decreases |a|
  {
    if |a| == 1 then Escape(a[0]) else Escape(a[0]) + Gap(a[0]) + RegexText(a[1..])
  }

  /** Reads one possibly escaped literal character and says how much text it took. */
  function ReadAtom(text: string): (r: Option<(char, nat)>)
    ensures r.Some? ==> 1 <= r.value.1 <= |text|
  {
    if |text| >= 2 && text[0] == '\\' && IsEscaped(text[1]) then Some((text[1], 2))
    else if |text| >= 1 && !IsEscaped(text[0]) then Some((text[0], 1))
    else None
  }

  /** Reads a regex text of the shape `c1[^c1]*...cn` back into its literal characters. */
  function ParseRegex(text: string): Option<seq<char>>
    decreases |text|
  {
    match ReadAtom(text)
    case None => None
    case Some((c, n)) =>
      var rest := text[n..];
      if rest == [] then Some([c])
      else if |Gap(c)| < |rest| && rest[..|Gap(c)|] == Gap(c) then
        match ParseRegex(rest[|Gap(c)|..])
        case Some(cs) => Some([c] + cs)
        case None => None
      else None
  }

  lemma ReadAtomEscape(c: char, tail: string)
    ensures ReadAtom(Escape(c) + tail) == Some((c, |Escape(c)|))
  {
    var text := Escape(c) + tail;
    assert IsEscaped('\\');
    if IsEscaped(c) {
      assert text[0] == '\\' && text[1] == c;
    } else {
      assert text[0] == c && c != '\\';
    }
  }

  /** Escaping loses nothing: every character but the last is followed by its gap, the last
      stands alone, and the characters can be read back from the text. */
  lemma {:induction false} ParseRegexText(a: Atoms)
    ensures ParseRegex(RegexText(a)) == Some(a)
    decreases |a|
  {
    if |a| == 1 {
      ParseLast(a[0]);
      assert a == [a[0]];
    } else {
      ParseStep(a[0], RegexText(a[1..]));
      ParseRegexText(a[1..]);
      assert [a[0]] + a[1..] == a;
    }
  }

  /** The last character stands alone. */
  lemma ParseLast(c: char)
    ensures ParseRegex(Escape(c)) == Some([c])
  {
    ReadAtomEscape(c, []);
    assert Escape(c) + [] == Escape(c);
    assert Escape(c)[|Escape(c)|..] == [];
  }

  /** A character followed by its gap is read, and reading goes on after the gap. */
  lemma ParseStep(c: char, t: string)
    requires |t| > 0
    ensures ParseRegex(Escape(c) + Gap(c) + t) == (if ParseRegex(t).Some? then Some([c] + ParseRegex(t).value) else None)
  {
    var e, rest := Escape(c), Gap(c) + t;
    var text := e + rest;
    assert e + Gap(c) + t == text;
    ReadAtomEscape(c, rest);
    assert text[|e|..] == rest;
    ParseAfterAtom(text, c, |e|, t);
  }

  /** Once a character is read, its gap is skipped and reading goes on after it. */
  lemma ParseAfterAtom(text: string, c: char, n: nat, t: string)
    requires ReadAtom(text) == Some((c, n)) && |t| > 0 && text[n..] == Gap(c) + t
    ensures ParseRegex(text) == (if ParseRegex(t).Some? then Some([c] + ParseRegex(t).value) else None)
  {
    var g := Gap(c);
    assert (g + t)[..|g|] == g && (g + t)[|g|..] == t;
  }

  /** Distinct keywords compile to distinct regex texts. */
  lemma RegexTextInjective(a: Atoms, b: Atoms)
    requires RegexText(a) == RegexText(b)
    ensures a == b
  {
    ParseRegexText(a);
    ParseRegexText(b);
  }

  /** A compiled keyword: the regex text and the literal characters it stands for. */
  datatype Pattern = Pattern(text: string, atoms: Atoms)

  /** `get_regex_prog(kw, True, islower)`. */
  function Compile(kw: Atoms, islower: bool): (p: Pattern)
    ensures p.atoms == Folded(kw, islower)
    ensures ParseRegex(p.text) == Some(p.atoms)
  {
    var search: Atoms := Folded(kw, islower);
    ParseRegexText(search);
    Pattern(RegexText(search), search)
  }
}
