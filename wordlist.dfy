/** The dictionary line filter applied to the downloaded word list
    (App.game.js:114): `text.split('\n').filter(word => word.length === 9)
    .map(word => word.trim().toUpperCase())`, and a corrected form of it. */
module WordList {

  /* ---- split('\n') ---- */

  /** Position of the first line feed, or |s| when there is none. */
  function FirstNewline(s: string): (i: nat)
    ensures i <= |s|
    ensures i < |s| ==> s[i] == '\n'
    ensures forall k :: 0 <= k < i ==> s[k] != '\n'
  {
    if s == [] || s[0] == '\n' then 0 else 1 + FirstNewline(s[1..])
  }

  predicate NoNewline(s: string) {
    forall k :: 0 <= k < |s| ==> s[k] != '\n'
  }

  /** `s.split('\n')`: the pieces between line feeds; an empty text is one empty line. */
  function Lines(s: string): (r: seq<string>)
    ensures |r| >= 1
    ensures forall i :: 0 <= i < |r| ==> NoNewline(r[i])
    decreases |s|
  {
    var i := FirstNewline(s);
    if i == |s| then [s] else [s[..i]] + Lines(s[i + 1..])
  }

  /** `parts.join('\n')` */
  function Join(parts: seq<string>): string
    requires |parts| >= 1
  {
    if |parts| == 1 then parts[0] else parts[0] + "\n" + Join(parts[1..])
  }

  /** Joining the lines restores the text. */
  lemma {:induction false} JoinLines(s: string)
    ensures Join(Lines(s)) == s
    decreases |s|
  {
    var i := FirstNewline(s);
    if i < |s| {
      var head, tail := s[..i], s[i + 1..];
      var rest := Lines(tail);
      assert Lines(s) == [head] + rest;
      JoinLines(tail);
      JoinCons(head, rest);
      SplitAtNewline(s, i);
    }
  }

  lemma JoinCons(head: string, rest: seq<string>)
    requires |rest| >= 1
    ensures Join([head] + rest) == head + "\n" + Join(rest)
  {
    assert ([head] + rest)[1..] == rest;
  }

  lemma SplitAtNewline(s: string, i: nat)
    requires i < |s| && s[i] == '\n'
    ensures s == s[..i] + "\n" + s[i + 1..]
  {
  }

  /** Splitting a join of pieces without line feeds gives the pieces back. */
  lemma {:induction false} LinesJoin(parts: seq<string>)
    requires |parts| >= 1
    requires forall i :: 0 <= i < |parts| ==> NoNewline(parts[i])
    ensures Lines(Join(parts)) == parts
    decreases |parts|
  {
    if |parts| > 1 {
      var head, tail := parts[0], parts[1..];
      var rest := Join(tail);
      var s := head + "\n" + rest;
      assert parts == [head] + tail;
      JoinCons(head, tail);
      NewlineAfter(head, rest);
      assert s[..|head|] == head;
      assert s[|head| + 1..] == rest;
      assert Lines(s) == [head] + Lines(rest);
      LinesJoin(tail);
    }
  }

  lemma NewlineAfter(head: string, rest: string)
    requires NoNewline(head)
    ensures FirstNewline(head + "\n" + rest) == |head|
  {
    var s := head + "\n" + rest;
    assert s[|head|] == '\n';
    assert forall k :: 0 <= k < |head| ==> s[k] == head[k];
  }

  /* ---- trim() ---- */

  /** The characters `String.prototype.trim` removes: the ECMAScript WhiteSpace
      code points (tab, vertical tab, form feed, space, no-break space, the byte
      order mark and the other space separators) and the line terminators. */
  predicate IsWhitespace(c: char) {
    c == '\t' || c == '\U{000B}' || c == '\U{000C}' || c == ' ' || c == '\U{00A0}' ||
    c == '\U{FEFF}' || c == '\U{1680}' || ('\U{2000}' <= c <= '\U{200A}') ||
    c == '\U{202F}' || c == '\U{205F}' || c == '\U{3000}' ||
    c == '\n' || c == '\r' || c == '\U{2028}' || c == '\U{2029}'
  }

  /** The length of the run of whitespace that starts `s`. */
  function LeadingSpace(s: string): (n: nat)
    ensures n <= |s|
    ensures forall i :: 0 <= i < n ==> IsWhitespace(s[i])
    ensures n < |s| ==> !IsWhitespace(s[n])
  {
    if s != [] && IsWhitespace(s[0]) then 1 + LeadingSpace(s[1..]) else 0
  }

  /** The length of the run of whitespace that ends `s`. */
  function TrailingSpace(s: string): (n: nat)
    ensures n <= |s|
    ensures forall i :: |s| - n <= i < |s| ==> IsWhitespace(s[i])
    ensures n < |s| ==> !IsWhitespace(s[|s| - n - 1])
  {
    if s != [] && IsWhitespace(s[|s| - 1]) then 1 + TrailingSpace(s[..|s| - 1]) else 0
  }

  function TrimStart(s: string): string {
    s[LeadingSpace(s)..]
  }

  function TrimEnd(s: string): string {
    s[..|s| - TrailingSpace(s)]
  }

  function Trim(s: string): string {
    TrimEnd(TrimStart(s))
  }

  /** The trimmed string is the part of `s` between a run of leading and a run
      of trailing whitespace, and it neither starts nor ends with whitespace. */
  lemma TrimIsCore(s: string)
    ensures exists a, b :: (0 <= a <= b <= |s| && Trim(s) == s[a..b] &&
      (forall i :: 0 <= i < a ==> IsWhitespace(s[i])) &&
      (forall i :: b <= i < |s| ==> IsWhitespace(s[i])))
    ensures Trim(s) == [] || (!IsWhitespace(Trim(s)[0]) && !IsWhitespace(Trim(s)[|Trim(s)| - 1]))
  {
    var t := TrimStart(s);
    var a := |s| - |t|;
    var r := TrimEnd(t);
    var b := a + |r|;
    assert r == s[a..b];
    forall i | b <= i < |s| ensures IsWhitespace(s[i]) {
      assert s[i] == t[i - a];
    }
    if r != [] {
      assert r[0] == t[0];
    }
  }

  /** A name such as the player's is blank exactly when it is all whitespace. */
  lemma TrimEmptyIff(s: string)
    ensures Trim(s) == [] <==> forall i :: 0 <= i < |s| ==> IsWhitespace(s[i])
  {
    var t := TrimStart(s);
    assert t != [] ==> t[0] == s[|s| - |t|];
  }

  /** Trimming twice is trimming once. */
  lemma TrimIdempotent(s: string)
    ensures Trim(Trim(s)) == Trim(s)
  {
    var r := Trim(s);
    TrimIsCore(s);
    if r != [] {
      assert TrimStart(r) == r;
    }
  }

  /* ---- toUpperCase() ---- */

  /** Upper case for the ASCII letters; every other character is kept. */
  function UpperChar(c: char): char {
    if 'a' <= c <= 'z' then (c as int - 'a' as int + 'A' as int) as char else c
  }

  predicate NoLowerAscii(s: string) {
    forall i :: 0 <= i < |s| ==> !('a' <= s[i] <= 'z')
  }

  function ToUpper(s: string): (r: string)
    ensures |r| == |s|
    ensures NoLowerAscii(r)
    ensures forall i :: 0 <= i < |s| ==> r[i] == UpperChar(s[i])
  {
    seq(|s|, i requires 0 <= i < |s| => UpperChar(s[i]))
  }

  /** Upper-casing keeps letters that are already upper case and everything
      that is not a letter, and is idempotent. */
  lemma ToUpperFixes(s: string)
    ensures NoLowerAscii(s) ==> ToUpper(s) == s
    ensures ToUpper(ToUpper(s)) == ToUpper(s)
  {
  }

  /** `word.trim().toUpperCase()` */
  function Clean(line: string): string {
    ToUpper(Trim(line))
  }

  /* ---- The filter as written and as intended ---- */

  /** `.filter(word => word.length === 9)` */
  function KeepNine(lines: seq<string>): (r: seq<string>)
    ensures forall w :: w in r <==> w in lines && |w| == 9
    ensures forall w :: multiset(r)[w] == if |w| == 9 then multiset(lines)[w] else 0
  {
    if lines == [] then []
    else
      assert lines == [lines[0]] + lines[1..];
      (if |lines[0]| == 9 then [lines[0]] else []) + KeepNine(lines[1..])
  }

  /** `.map(word => word.trim().toUpperCase())` */
  function CleanAll(lines: seq<string>): (r: seq<string>)
    ensures |r| == |lines|
    ensures forall i :: 0 <= i < |lines| ==> r[i] == Clean(lines[i])
  {
    seq(|lines|, i requires 0 <= i < |lines| => Clean(lines[i]))
  }

  /** The dictionary as the code builds it: the raw length is tested before the
      line is trimmed. */
  function ParseWordList(text: string): seq<string> {
    CleanAll(KeepNine(Lines(text)))
  }

  /** The dictionary with the length tested on the trimmed line. */
  function ParseWordListTrimmed(text: string): seq<string> {
    KeepNine(CleanAll(Lines(text)))
  }

  /** As written, a word is a nine-character line cleaned up; trimming can make
      it shorter than nine. */
  lemma ParseWordListWords(text: string, w: string)
    requires w in ParseWordList(text)
    ensures |w| <= 9 && NoLowerAscii(w)
    ensures exists line :: line in Lines(text) && |line| == 9 && Clean(line) == w
  {
    var raw := KeepNine(Lines(text));
    var i :| 0 <= i < |raw| && ParseWordList(text)[i] == w;
    assert raw[i] in raw;
  }

  /** A cleaned line has no lower-case letter and neither starts nor ends with
      whitespace. */
  lemma CleanShape(line: string)
    ensures NoLowerAscii(Clean(line))
    ensures Clean(line) == [] ||
      (!IsWhitespace(Clean(line)[0]) && !IsWhitespace(Clean(line)[|Clean(line)| - 1]))
  {
    TrimIsCore(line);
  }

  /** Correctly, the dictionary holds exactly the cleaned lines of nine characters. */
  lemma ParseWordListTrimmedIff(text: string, w: string)
    ensures w in ParseWordListTrimmed(text) <==>
      |w| == 9 && exists line :: line in Lines(text) && Clean(line) == w
  {
    if w in ParseWordListTrimmed(text) {
      TrimmedWordHasLine(text, w);
    }
    if |w| == 9 && exists line :: line in Lines(text) && Clean(line) == w {
      var line :| line in Lines(text) && Clean(line) == w;
      TrimmedLineKept(text, line);
    }
  }

  lemma TrimmedWordHasLine(text: string, w: string)
    requires w in ParseWordListTrimmed(text)
    ensures |w| == 9 && exists line :: line in Lines(text) && Clean(line) == w
  {
    var ls := Lines(text);
    var cleaned := CleanAll(ls);
    assert w in cleaned;
    var i :| 0 <= i < |cleaned| && cleaned[i] == w;
    assert ls[i] in ls && Clean(ls[i]) == w;
  }

  lemma TrimmedLineKept(text: string, line: string)
    requires line in Lines(text) && |Clean(line)| == 9
    ensures Clean(line) in ParseWordListTrimmed(text)
  {
    var ls := Lines(text);
    var cleaned := CleanAll(ls);
    var i :| 0 <= i < |ls| && ls[i] == line;
    assert cleaned[i] == Clean(line);
    assert Clean(line) in cleaned;
  }

  /** Every word of the corrected dictionary is nine characters of upper case
      that neither start nor end with whitespace. */
  lemma ParseWordListTrimmedWords(text: string, w: string)
    requires w in ParseWordListTrimmed(text)
    ensures |w| == 9 && NoLowerAscii(w) && !IsWhitespace(w[0]) && !IsWhitespace(w[8])
  {
    ParseWordListTrimmedIff(text, w);
    var line :| line in Lines(text) && Clean(line) == w;
    CleanShape(line);
  }

  /** A line of upper-case letters followed by a carriage return cleans to the letters. */
  lemma CleanCr(word: string)
    requires 0 < |word|
    requires forall i :: 0 <= i < |word| ==> 'A' <= word[i] <= 'Z'
    ensures Clean(word + "\r") == word
  {
    var line := word + "\r";
    assert line[0] == word[0] && !IsWhitespace(line[0]);
    assert LeadingSpace(line) == 0;
    assert line[..|line| - 1] == word && line[|line| - 1] == '\r';
    assert !IsWhitespace(word[|word| - 1]);
    assert TrailingSpace(word) == 0;
    assert TrailingSpace(line) == 1;
    assert Trim(line) == word;
    ToUpperFixes(word);
  }

  predicate UpperLetters(word: string) {
    forall i :: 0 <= i < |word| ==> 'A' <= word[i] <= 'Z'
  }

  /** A file with Windows line endings: a nine-letter and an eight-letter word,
      each followed by "\r\n". */
  function CrlfFile(nine: string, eight: string): string {
    nine + "\r\n" + eight + "\r\n"
  }

  lemma CrlfFileLines(nine: string, eight: string)
    requires NoNewline(nine) && NoNewline(eight)
    ensures Lines(CrlfFile(nine, eight)) == [nine + "\r", eight + "\r", ""]
  {
    var parts := [nine + "\r", eight + "\r", ""];
    assert NoNewline(nine + "\r") && NoNewline(eight + "\r");
    LinesJoin(parts);
    assert parts[1..] == [eight + "\r", ""];
    assert parts[1..][1..] == [""];
    assert Join([""]) == "";
    assert Join(parts[1..]) == eight + "\r" + "\n";
    var a, b := nine + "\r\n", eight + "\r\n";
    assert nine + "\r" + "\n" == a;
    assert eight + "\r" + "\n" == b;
    assert Join(parts) == a + b;
    assert CrlfFile(nine, eight) == a + b;
  }

  /** As written, the nine-letter word of a CRLF file is dropped (its raw line
      has ten characters) and the eight-letter word is kept (its raw line has
      nine). */
  lemma CrlfAsWritten(nine: string, eight: string)
    requires |nine| == 9 && |eight| == 8 && UpperLetters(nine) && UpperLetters(eight)
    ensures ParseWordList(CrlfFile(nine, eight)) == [eight]
  {
    CrlfFileLines(nine, eight);
    KeepSecondSample(nine + "\r", eight + "\r");
    CleanCr(eight);
  }

  /** Corrected, the nine-letter word is kept and the eight-letter one dropped. */
  lemma CrlfCorrected(nine: string, eight: string)
    requires |nine| == 9 && |eight| == 8 && UpperLetters(nine) && UpperLetters(eight)
    ensures ParseWordListTrimmed(CrlfFile(nine, eight)) == [nine]
  {
    CrlfFileLines(nine, eight);
    var ls := [nine + "\r", eight + "\r", ""];
    CleanCr(nine);
    CleanCr(eight);
    assert CleanAll(ls) == [nine, eight, ""] by {
      assert ls[1..] == [eight + "\r", ""];
      assert ls[1..][1..] == [""];
      assert [""][1..] == [];
      assert Clean("") == "";
    }
    KeepNineSample(nine, eight);
  }

  lemma KeepNineSample(nine: string, eight: string)
    requires |nine| == 9 && |eight| == 8
    ensures KeepNine([nine, eight, ""]) == [nine]
  {
    var ls := [nine, eight, ""];
    assert ls[1..] == [eight, ""];
    assert ls[1..][1..] == [""];
    assert [""][1..] == [];
    assert KeepNine([""]) == [];
    assert KeepNine(ls[1..]) == [];
  }

  lemma KeepSecondSample(first: string, second: string)
    requires |first| != 9 && |second| == 9
    ensures KeepNine([first, second, ""]) == [second]
  {
    var ls := [first, second, ""];
    assert ls[1..] == [second, ""];
    assert ls[1..][1..] == [""];
    assert [""][1..] == [];
    assert KeepNine([""]) == [];
    assert KeepNine(ls[1..]) == [second];
  }
}
