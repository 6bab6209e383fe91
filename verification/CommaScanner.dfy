/** The string-aware scanner that removes structural trailing commas
    (arena/reviewers/response_parser.py:64-96). */
module CommaScanner {

  /** Outside a string literal, inside one, or just after a backslash inside one. */
  datatype Scan = Outside | Inside | Escaped

  function Step(s: Scan, c: char): Scan {
    match s
    case Outside => if c == '"' then Inside else Outside
    case Inside => if c == '\\' then Escaped else if c == '"' then Outside else Inside
    case Escaped => Inside
  }

  predicate JsonSpace(c: char) { c == ' ' || c == '\t' || c == '\r' || c == '\n' }

  /** The next character that is not white space exists and closes an object or array. */
  predicate ClosesNext(text: string) {
    text != "" && if JsonSpace(text[0]) then ClosesNext(text[1..]) else text[0] == '}' || text[0] == ']'
  }

  /** The text without the commas outside strings that are followed by a closer. */
  function Clean(text: string, s: Scan): string {
    if text == "" then ""
    else if s.Outside? && text[0] == ',' && ClosesNext(text[1..]) then Clean(text[1..], s)
    else [text[0]] + Clean(text[1..], Step(s, text[0]))
  }

  method SkipSpace(text: string, start: nat) returns (look: nat)
    requires start <= |text|
    ensures start <= look <= |text|
    ensures ClosesNext(text[start..]) <==> look < |text| && (text[look] == '}' || text[look] == ']')
  {
    look := start;
    while look < |text| && JsonSpace(text[look])
      invariant start <= look <= |text|
      invariant ClosesNext(text[start..]) <==> ClosesNext(text[look..])
    {
      assert text[look..][1..] == text[look + 1..];
      look := look + 1;
    }
  }

  // ---------------------------------------------------------------- text as tokens

  /** What a string literal consists of: a character that stands for itself, or a backslash and
      any character. */
  datatype Unit = Plain(c: char) | Escape(c: char)

  /** A character outside literals, a literal, or one that the text ends in; `cut` when that is
      directly after a backslash. */
  datatype Token = Mark(c: char) | Literal(units: seq<Unit>) | Unfinished(units: seq<Unit>, cut: bool)

  function SpellUnits(units: seq<Unit>): string {
    if units == [] then ""
    else (if units[0].Plain? then [units[0].c] else ['\\', units[0].c]) + SpellUnits(units[1..])
  }

  function SpellToken(t: Token): string {
    match t
    case Mark(c) => [c]
    case Literal(units) => "\"" + SpellUnits(units) + "\""
    case Unfinished(units, cut) => "\"" + SpellUnits(units) + if cut then "\\" else ""
  }

  function Spell(ts: seq<Token>): string {
    if ts == [] then "" else SpellToken(ts[0]) + Spell(ts[1..])
  }

  ghost predicate Units(units: seq<Unit>) {
    forall i :: 0 <= i < |units| && units[i].Plain? ==> units[i].c != '"' && units[i].c != '\\'
  }

  /** No quote outside literals, and nothing after an unfinished one. */
  ghost predicate Lexical(ts: seq<Token>) {
    forall i :: 0 <= i < |ts| ==>
      match ts[i]
      case Mark(c) => c != '"'
      case Literal(units) => Units(units)
      case Unfinished(units, _) => Units(units) && i == |ts| - 1
  }

  /** The next mark that is no white space closes an object or array. */
  predicate ClosingNext(ts: seq<Token>) {
    ts != [] && ts[0].Mark? && if ts[0].c in " \t\r\n" then ClosingNext(ts[1..]) else ts[0].c in "}]"
  }

  /** Without the comma marks after which an object or array is closed. */
  function Tidy(ts: seq<Token>): seq<Token> {
    if ts == [] then []
    else (if ts[0] == Mark(',') && ClosingNext(ts[1..]) then [] else [ts[0]]) + Tidy(ts[1..])
  }

  lemma {:induction false} CleanInside(c: char, rest: string)
    ensures c != '"' && c != '\\' ==> Clean([c] + rest, Inside) == [c] + Clean(rest, Inside)
    ensures Clean(['\\', c] + rest, Inside) == ['\\', c] + Clean(rest, Inside)
  {
    assert ([c] + rest)[1..] == rest;
    assert (['\\', c] + rest)[1..] == [c] + rest;
    assert Clean([c] + rest, Escaped) == [c] + Clean(rest, Inside);
  }

  lemma {:induction false} CleanUnits(units: seq<Unit>, rest: string)
    requires Units(units)
    ensures Clean(SpellUnits(units) + rest, Inside) == SpellUnits(units) + Clean(rest, Inside)
  {
    hide Clean;
    if units == [] {
      assert "" + rest == rest;
    } else {
      var first, later := if units[0].Plain? then [units[0].c] else ['\\', units[0].c], SpellUnits(units[1..]);
      CleanUnits(units[1..], rest);
      CleanInside(units[0].c, later + rest);
      assert SpellUnits(units) + rest == first + (later + rest);
    }
  }

  /** A literal is copied, escaped quotes and commas included, and what follows it is cleaned as
      text outside literals. */
  lemma {:induction false} LiteralIsCopied(units: seq<Unit>, rest: string)
    requires Units(units)
    ensures
      var literal := "\"" + SpellUnits(units) + "\"";
      Clean(literal + rest, Outside) == literal + Clean(rest, Outside)
  {
    var body := SpellUnits(units);
    var text := "\"" + body + "\"" + rest;
    assert text[1..] == body + ("\"" + rest);
    CleanUnits(units, "\"" + rest);
    assert ("\"" + rest)[1..] == rest;
    assert Clean("\"" + rest, Inside) == "\"" + Clean(rest, Outside);
  }

  /** A literal that never ends is copied too. */
  lemma {:induction false} UnfinishedIsCopied(units: seq<Unit>, cut: bool)
    requires Units(units)
    ensures Clean(SpellToken(Unfinished(units, cut)), Outside) == SpellToken(Unfinished(units, cut))
  {
    var body, tail := SpellUnits(units), if cut then "\\" else "";
    var text := "\"" + body + tail;
    assert text[1..] == body + tail;
    CleanUnits(units, tail);
    assert Clean(tail, Inside) == tail by {
      if cut { assert tail[1..] == ""; }
    }
  }

  lemma {:induction false} ClosesNextSpelled(ts: seq<Token>)
    requires Lexical(ts)
    ensures ClosesNext(Spell(ts)) <==> ClosingNext(ts)
  {
    if ts != [] {
      var first, rest := ts[0], Spell(ts[1..]);
      assert Spell(ts) == SpellToken(first) + rest;
      if first.Mark? {
        assert Spell(ts)[0] == first.c && Spell(ts)[1..] == rest;
        LexicalRest(ts);
        ClosesNextSpelled(ts[1..]);
      } else {
        assert Spell(ts)[0] == '"';
      }
    }
  }

  lemma {:induction false} LexicalRest(ts: seq<Token>)
    requires Lexical(ts) && ts != []
    ensures Lexical(ts[1..])
  {
    forall i | 0 <= i < |ts| - 1
      ensures match ts[1..][i]
              case Mark(c) => c != '"'
              case Literal(units) => Units(units)
              case Unfinished(units, _) => Units(units) && i == |ts[1..]| - 1
    {
      assert ts[1..][i] == ts[i + 1];
    }
  }

  /** Cleaning drops exactly the comma marks before a closer, token by token. */
  lemma {:induction false} CleanTidies(ts: seq<Token>)
    requires Lexical(ts)
    ensures Clean(Spell(ts), Outside) == Spell(Tidy(ts))
  {
    if ts != [] {
      var first, rest := ts[0], ts[1..];
      LexicalRest(ts);
      CleanTidies(rest);
      assert ([first] + Tidy(rest))[1..] == Tidy(rest);
      match first {
        case Mark(c) =>
          ClosesNextSpelled(rest);
          assert Spell(ts) == [c] + Spell(rest) && Spell(ts)[1..] == Spell(rest);
          assert [] + Tidy(rest) == Tidy(rest);
        case Literal(units) =>
          LiteralIsCopied(units, Spell(rest));
        case Unfinished(units, cut) =>
          assert rest == [];
          UnfinishedIsCopied(units, cut);
          assert Spell(ts) == SpellToken(first) + "" == SpellToken(first);
      }
    }
  }

  lemma {:induction false} UnitsOf(text: string) returns (units: seq<Unit>, rest: string)
    ensures Units(units) && text == SpellUnits(units) + rest
    ensures rest == "" || rest[0] == '"' || rest == "\\"
  {
    if text == "" || text[0] == '"' || text == "\\" {
      return [], text;
    }
    var first, size := if text[0] == '\\' then Escape(text[1]) else Plain(text[0]), if text[0] == '\\' then 2 else 1;
    units, rest := UnitsOf(text[size..]);
    assert text == text[..size] + text[size..];
    assert ([first] + units)[1..] == units;
    units := [first] + units;
  }

  /** A text that begins with a quote begins with a literal, or is one that never ends. */
  lemma {:induction false} LiteralFirst(text: string) returns (first: Token, rest: string)
    requires text != "" && text[0] == '"'
    ensures text == SpellToken(first) + rest && |rest| < |text| && !first.Mark? && Units(first.units)
    ensures first.Unfinished? ==> rest == ""
  {
    hide Units, SpellUnits;
    var units, tail := UnitsOf(text[1..]);
    assert text == "\"" + SpellUnits(units) + tail;
    if tail != "" && tail[0] == '"' {
      first, rest := Literal(units), tail[1..];
      assert tail == "\"" + rest;
    } else {
      first, rest := Unfinished(units, tail != ""), "";
    }
  }

  /** Every text is made of such tokens. */
  lemma {:induction false} EveryTextIsLexical(text: string) returns (ts: seq<Token>)
    ensures Lexical(ts) && Spell(ts) == text
    decreases |text|
  {
    if text == "" { return []; }
    hide Lexical, Spell, SpellToken, SpellUnits, Units;
    var first, rest := Mark(text[0]), text[1..];
    if text[0] == '"' {
      first, rest := LiteralFirst(text);
    } else {
      assert text == [text[0]] + rest;
      MarkIsItself(text[0]);
    }
    if first.Unfinished? {
      assert rest == "" && SpellToken(first) + rest == SpellToken(first);
      ts := LexicalEnd(first.units, first.cut);
    } else {
      ts := EveryTextIsLexical(rest);
      ts := LexicalBefore(first, ts);
    }
  }

  lemma {:induction false} MarkIsItself(c: char)
    ensures SpellToken(Mark(c)) == [c]
  {
  }

  lemma {:induction false} LexicalBefore(first: Token, rest: seq<Token>) returns (ts: seq<Token>)
    requires Lexical(rest) && if first.Mark? then first.c != '"' else first.Literal? && Units(first.units)
    ensures Lexical(ts) && Spell(ts) == SpellToken(first) + Spell(rest)
  {
    ts := [first] + rest;
    assert ts[1..] == rest;
    forall i | 0 < i < |ts| ensures ts[i] == rest[i - 1] {}
  }

  lemma {:induction false} LexicalEnd(units: seq<Unit>, cut: bool) returns (ts: seq<Token>)
    requires Units(units)
    ensures Lexical(ts) && Spell(ts) == SpellToken(Unfinished(units, cut))
  {
    ts := [Unfinished(units, cut)];
    assert Spell(ts) == SpellToken(ts[0]) + "";
  }

  /** In a literal, a quote after n backslashes ends it exactly when n is even. */
  lemma {:induction false} QuoteEndsAfterEvenRun(n: nat)
    ensures EndState(seq(n, _ => '\\') + "\"", Inside).Outside? <==> n % 2 == 0
    ensures EndState(seq(n, _ => '\\') + "\"", Inside).Inside? <==> n % 2 == 1
  {
    var text := seq(n, _ => '\\') + "\"";
    if n >= 2 {
      QuoteEndsAfterEvenRun(n - 2);
      assert text[1..][1..] == seq(n - 2, _ => '\\') + "\"";
    } else if n == 1 {
      assert text == "\\\"" && text[1..] == "\"" && text[1..][1..] == "";
      assert EndState("\"", Escaped) == Inside;
    } else {
      assert text == "\"" && text[1..] == "";
    }
  }

  // ---------------------------------------------------------------- the loop

  /** Whatever tokens the text is made of, the loop returns them without the commas before a closer. */
  method StripTrailingCommas(text: string) returns (out: string)
    ensures out == Clean(text, Outside)
    ensures forall ts :: Lexical(ts) && Spell(ts) == text ==> out == Spell(Tidy(ts))
  {
    hide ClosesNext, Spell, Tidy, Lexical;
    out := [];
    var inString, escaped := false, false;
    for index := 0 to |text|
      invariant escaped ==> inString
      invariant
        var s := if escaped then Escaped else if inString then Inside else Outside;
        out + Clean(text[index..], s) == Clean(text, Outside)
    {
      var c := text[index];
      assert text[index..][1..] == text[index + 1..];
      if inString {
        out := out + [c];
        if escaped {
          escaped := false;
        } else if c == '\\' {
          escaped := true;
        } else if c == '"' {
          inString := false;
        }
      } else if c == '"' {
        inString := true;
        out := out + [c];
      } else {
        var drop := false;
        if c == ',' {
          var look := SkipSpace(text, index + 1);
          drop := look < |text| && (text[look] == '}' || text[look] == ']');
        }
        if !drop { out := out + [c]; }
      }
    }
    forall ts | Lexical(ts) && Spell(ts) == text ensures out == Spell(Tidy(ts)) { CleanTidies(ts); }
  }

  // ---------------------------------------------------------------- what survives

  /** The characters of all string literals, with their quotes and escapes. */
  function Literals(text: string, s: Scan): string {
    if text == "" then ""
    else (if s.Outside? && text[0] != '"' then "" else [text[0]]) + Literals(text[1..], Step(s, text[0]))
  }

  /** Everything but the commas outside string literals. */
  function WithoutCommas(text: string, s: Scan): string {
    if text == "" then ""
    else (if s.Outside? && text[0] == ',' then "" else [text[0]]) + WithoutCommas(text[1..], Step(s, text[0]))
  }

  function EndState(text: string, s: Scan): Scan {
    if text == "" then s else EndState(text[1..], Step(s, text[0]))
  }

  /** Cleaning keeps every string literal and every other character that is not a comma outside a
      string, and leaves the scanner in the same state. */
  lemma {:induction false} CleanKeepsAllButCommas(text: string, s: Scan)
    ensures Literals(Clean(text, s), s) == Literals(text, s)
    ensures WithoutCommas(Clean(text, s), s) == WithoutCommas(text, s)
    ensures EndState(Clean(text, s), s) == EndState(text, s)
  {
    if text != "" {
      CleanKeepsAllButCommas(text[1..], Step(s, text[0]));
      if !(s.Outside? && text[0] == ',' && ClosesNext(text[1..])) {
        var rest := Clean(text[1..], Step(s, text[0]));
        assert ([text[0]] + rest)[1..] == rest;
      }
    }
  }

  /** Some comma outside a string is followed by a closer. */
  predicate HasTrailingComma(text: string, s: Scan) {
    text != ""
    && ((s.Outside? && text[0] == ',' && ClosesNext(text[1..])) || HasTrailingComma(text[1..], Step(s, text[0])))
  }

  lemma {:induction false} CleanIsNotLonger(text: string, s: Scan)
    ensures |Clean(text, s)| <= |text|
    ensures HasTrailingComma(text, s) ==> |Clean(text, s)| < |text|
  {
    if text != "" { CleanIsNotLonger(text[1..], Step(s, text[0])); }
  }

  /** Text is left alone exactly when it has no trailing comma. */
  lemma {:induction false} CleanChangesOnlyTrailingCommas(text: string, s: Scan)
    ensures Clean(text, s) == text <==> !HasTrailingComma(text, s)
  {
    CleanIsNotLonger(text, s);
    if text != "" && !HasTrailingComma(text, s) {
      CleanChangesOnlyTrailingCommas(text[1..], Step(s, text[0]));
      assert [text[0]] + text[1..] == text;
    }
  }

  // ---------------------------------------------------------------- position by position

  /** The character at i is a comma outside strings, and what follows it closes. */
  predicate TrailingAt(text: string, i: nat)
    requires i < |text|
  {
    EndState(text[..i], Outside).Outside? && text[i] == ',' && ClosesNext(text[i + 1..])
  }

  /** The positions from i on that hold no trailing comma. */
  ghost function Kept(text: string, i: nat): (kept: seq<nat>)
    requires i <= |text|
    ensures forall k :: k in kept <==> i <= k < |text| && !TrailingAt(text, k)
    ensures forall m :: 0 <= m < |kept| ==> i <= kept[m]
    ensures forall m, n :: 0 <= m < n < |kept| ==> kept[m] < kept[n]
    decreases |text| - i
  {
    if i == |text| then [] else (if TrailingAt(text, i) then [] else [i]) + Kept(text, i + 1)
  }

  lemma {:induction false} StateAfter(text: string, s: Scan, i: nat)
    requires i < |text|
    ensures EndState(text[..i + 1], s) == Step(EndState(text[..i], s), text[i])
  {
    if i > 0 {
      assert text[..i + 1][1..] == text[1..][..i] && text[..i][1..] == text[1..][..i - 1];
      StateAfter(text[1..], Step(s, text[0]), i - 1);
    } else {
      assert text[..1][1..] == "";
    }
  }

  /** `out` is the text at the positions `kept`; scanned from state s, the scanner is in the same
      state at each character of `out` as at its position in the text. */
  ghost predicate Selects(text: string, s: Scan, out: string, kept: seq<nat>) {
    && |out| == |kept|
    && forall n :: 0 <= n < |out| ==>
         && kept[n] < |text| && out[n] == text[kept[n]]
         && EndState(out[..n], s) == EndState(text[..kept[n]], Outside)
  }

  lemma {:induction false} SelectsOneMore(text: string, s: Scan, i: nat, rest: string, kept: seq<nat>)
    requires i < |text| && s == EndState(text[..i], Outside) && Selects(text, Step(s, text[i]), rest, kept)
    ensures Selects(text, s, [text[i]] + rest, [i] + kept)
  {
    var out := [text[i]] + rest;
    forall n | 0 <= n < |out|
      ensures EndState(out[..n], s) == EndState(text[..([i] + kept)[n]], Outside)
    {
      if n > 0 {
        assert out[..n] == [text[i]] + rest[..n - 1];
      }
    }
  }

  lemma {:induction false} CleanedFrom(text: string, i: nat)
    requires i <= |text|
    ensures
      var s := EndState(text[..i], Outside);
      Selects(text, s, Clean(text[i..], s), Kept(text, i))
    decreases |text| - i
  {
    if i < |text| {
      var s := EndState(text[..i], Outside);
      CleanedFrom(text, i + 1);
      StateAfter(text, Outside, i);
      assert text[i..][1..] == text[i + 1..];
      if !TrailingAt(text, i) {
        SelectsOneMore(text, s, i, Clean(text[i + 1..], Step(s, text[i])), Kept(text, i + 1));
      }
      hide Selects, EndState;
    }
  }

  /** The result is the text at exactly the positions without a trailing comma, in order, and at
      each of them the scanner is in the same state in the result as in the text. */
  lemma {:induction false} CleanDropsExactlyTrailingCommas(text: string)
    ensures Selects(text, Outside, Clean(text, Outside), Kept(text, 0))
  {
    CleanedFrom(text, 0);
    assert text[0..] == text && text[..0] == "";
  }

  // ---------------------------------------------------------------- doubled commas

  /** The next character that is not white space is itself a trailing comma. */
  predicate TrailingCommaNext(text: string) {
    text != ""
    && if JsonSpace(text[0]) then TrailingCommaNext(text[1..]) else text[0] == ',' && ClosesNext(text[1..])
  }

  /** Some comma outside a string is directly followed by a trailing comma. */
  predicate HasDoubledComma(text: string, s: Scan) {
    text != ""
    && ((s.Outside? && text[0] == ',' && TrailingCommaNext(text[1..])) || HasDoubledComma(text[1..], Step(s, text[0])))
  }

  lemma {:induction false} CleanedStillCloses(text: string)
    requires ClosesNext(text)
    ensures ClosesNext(Clean(text, Outside))
  {
    var rest := Clean(text[1..], Outside);
    assert ([text[0]] + rest)[1..] == rest;
    if JsonSpace(text[0]) { CleanedStillCloses(text[1..]); }
  }

  lemma {:induction false} ClosesAfterCleaning(text: string)
    ensures ClosesNext(Clean(text, Outside)) <==> ClosesNext(text) || TrailingCommaNext(text)
  {
    if text != "" {
      if text[0] == ',' && ClosesNext(text[1..]) {
        CleanedStillCloses(text[1..]);
      } else {
        var rest := Clean(text[1..], Step(Outside, text[0]));
        assert ([text[0]] + rest)[1..] == rest;
        if JsonSpace(text[0]) { ClosesAfterCleaning(text[1..]); }
      }
    }
  }

  lemma {:induction false} DoubledCommasLeaveOne(text: string, s: Scan)
    ensures HasTrailingComma(Clean(text, s), s) <==> HasDoubledComma(text, s)
  {
    if text != "" {
      var rest := Clean(text[1..], Step(s, text[0]));
      DoubledCommasLeaveOne(text[1..], Step(s, text[0]));
      if s.Outside? && text[0] == ',' {
        ClosesAfterCleaning(text[1..]);
        if ClosesNext(text[1..]) { ClosingIsNotComma(text[1..]); }
      }
      assert ([text[0]] + rest)[1..] == rest;
    }
  }

  lemma {:induction false} ClosingIsNotComma(text: string)
    requires ClosesNext(text)
    ensures !TrailingCommaNext(text)
  {
    if JsonSpace(text[0]) { ClosingIsNotComma(text[1..]); }
  }

  /** One pass removes all trailing commas exactly when none of them follows another comma. */
  lemma {:induction false} CleanIsFinalExactly(text: string)
    ensures !HasTrailingComma(Clean(text, Outside), Outside) <==> !HasDoubledComma(text, Outside)
    ensures Clean(Clean(text, Outside), Outside) == Clean(text, Outside) <==> !HasDoubledComma(text, Outside)
  {
    DoubledCommasLeaveOne(text, Outside);
    CleanChangesOnlyTrailingCommas(Clean(text, Outside), Outside);
  }

  lemma {:induction false} DoubledCommaSurvives()
    ensures Clean("[1,,]", Outside) == "[1,]"
  {
    var t := "[1,,]";
    assert t[4..] == "]" && t[3..] == ",]" && t[2..] == ",,]" && t[1..] == "1,,]";
    assert Clean("]", Outside) == "]" by { assert "]"[1..] == ""; }
    assert ClosesNext("]");
    assert ",]"[1..] == "]" && ",,]"[1..] == ",]" && "1,,]"[1..] == ",,]";
    assert Clean(",]", Outside) == "]";
    assert !ClosesNext(",]");
    assert Clean(",,]", Outside) == ",]";
    assert Clean("1,,]", Outside) == "1,]";
  }
}
