// The serde-style `rename_all` rules of case.rs: parsing a rule's name, splitting an
// identifier into words, and joining the case-mapped words again. Characters are
// classified and case-mapped by their ASCII meaning.

module Case {
  import opened Base

  // ---------------------------------------------------------------------------
  // Characters
  // ---------------------------------------------------------------------------

  predicate IsUpper(c: char) { 'A' <= c <= 'Z' }

  predicate IsLower(c: char) { 'a' <= c <= 'z' }

  /** The two word separators. */
  predicate IsSep(c: char) { c == '_' || c == '-' }

  function LowerChar(c: char): (d: char)
    ensures !IsUpper(d) && (IsSep(d) <==> IsSep(c))
    ensures !IsUpper(c) ==> d == c
  {
    if IsUpper(c) then (c as int + 32) as char else c
  }

  function UpperChar(c: char): (d: char)
    ensures !IsLower(d) && (IsSep(d) <==> IsSep(c))
    ensures !IsLower(c) ==> d == c
  {
    if IsLower(c) then (c as int - 32) as char else c
  }

  /** `to_lowercase` on a string. */
  function Lowered(s: string): (r: string)
    ensures |r| == |s| && forall k :: 0 <= k < |s| ==> r[k] == LowerChar(s[k])
  {
    seq(|s|, k requires 0 <= k < |s| => LowerChar(s[k]))
  }

  /** `to_uppercase` on a string. */
  function Uppered(s: string): (r: string)
    ensures |r| == |s| && forall k :: 0 <= k < |s| ==> r[k] == UpperChar(s[k])
  {
    seq(|s|, k requires 0 <= k < |s| => UpperChar(s[k]))
  }

  /** `current_word.chars().all(char::is_uppercase)`. */
  predicate AllUpper(s: string)
  {
    forall k :: 0 <= k < |s| ==> IsUpper(s[k])
  }

  predicate NoSeps(s: string)
  {
    forall k :: 0 <= k < |s| ==> !IsSep(s[k])
  }

  predicate NoUpper(s: string)
  {
    forall k :: 0 <= k < |s| ==> !IsUpper(s[k])
  }

  /** A word as `split_into_words` yields it: never empty, never holding a separator. */
  predicate IsWord(w: string)
  {
    |w| > 0 && NoSeps(w)
  }

  predicate AllWords(ws: seq<string>)
  {
    forall j :: 0 <= j < |ws| ==> IsWord(ws[j])
  }

  /** `s` with every '_' and '-' removed. */
  function RemoveSeps(s: string): (r: string)
    ensures NoSeps(r) && |r| <= |s|
  {
    if s == [] then []
    else (if IsSep(s[0]) then [] else [s[0]]) + RemoveSeps(s[1..])
  }

  /** The words, one after another (`concat`). */
  function Concat(ws: seq<string>): string
  {
    if ws == [] then [] else Concat(ws[..|ws| - 1]) + ws[|ws| - 1]
  }

  /** The words with `sep` between each two (`join`). */
  function Join(ws: seq<string>, sep: char): string
  {
    if ws == [] then []
    else if |ws| == 1 then ws[0]
    else ws[0] + [sep] + Join(ws[1..], sep)
  }

  function MapLowered(ws: seq<string>): (r: seq<string>)
    ensures |r| == |ws| && forall j :: 0 <= j < |ws| ==> r[j] == Lowered(ws[j])
  {
    seq(|ws|, j requires 0 <= j < |ws| => Lowered(ws[j]))
  }

  function MapUppered(ws: seq<string>): (r: seq<string>)
    ensures |r| == |ws| && forall j :: 0 <= j < |ws| ==> r[j] == Uppered(ws[j])
  {
    seq(|ws|, j requires 0 <= j < |ws| => Uppered(ws[j]))
  }

  // ---------------------------------------------------------------------------
  // split_into_words
  // ---------------------------------------------------------------------------

  /** The loop's state: the word being built and the words pushed so far. */
  datatype SplitState = SplitState(cur: string, words: seq<string>)

  /** One character of `split_into_words`, given whether the character after it is
    * lowercase:
    * - a separator ends the current word, if any;
    * - an uppercase character ends a nonempty current word that holds a character other
    *   than uppercase, or that is all uppercase while the next character is lowercase
    *   (the end of an acronym); it then starts or extends the current word;
    * - any other character extends the current word. */
  function Feed(ch: char, nextIsLower: bool, cur: string, words: seq<string>): SplitState
  {
    if IsSep(ch) then SplitState([], if cur != [] then words + [cur] else words)
    else if IsUpper(ch) && cur != [] && (!AllUpper(cur) || nextIsLower) then SplitState([ch], words + [cur])
    else SplitState(cur + [ch], words)
  }

  /** The words `split_into_words` yields when `rest` is still unread, `cur` is the word
    * being built and `words` have been pushed; at the end a nonempty current word is the
    * last word. */
  function Split(rest: string, cur: string, words: seq<string>): seq<string>
    decreases |rest|
  {
    if rest == [] then (if cur != [] then words + [cur] else words)
    else
      var st := Feed(rest[0], |rest| > 1 && IsLower(rest[1]), cur, words);
      Split(rest[1..], st.cur, st.words)
  }

  function SplitWords(name: string): seq<string>
  {
    Split(name, [], [])
  }

  /** `split_into_words`: one pass over the characters, pushing a word whenever a
    * separator or a case transition ends it. */
  method SplitIntoWords(name: string) returns (words: seq<string>)
    ensures words == SplitWords(name)
    ensures forall j :: 0 <= j < |words| ==> IsWord(words[j])
    ensures Concat(words) == RemoveSeps(name)
  {
    words := [];
    var cur: string := [];
    var i := 0;
    while i < |name|
      invariant 0 <= i <= |name|
      invariant Split(name[i..], cur, words) == SplitWords(name)
    {
      var ch := name[i];
      var nextIsLower := i + 1 < |name| && IsLower(name[i + 1]);
      assert name[i..][0] == ch && name[i..][1..] == name[i + 1..];
      assert nextIsLower == (|name[i..]| > 1 && IsLower(name[i..][1]));
      ghost var st := Feed(ch, nextIsLower, cur, words);
      if IsSep(ch) {
        if cur != [] {
          words := words + [cur];
          cur := [];
        }
      } else if IsUpper(ch) {
        if cur != [] {
          var allUpper := AllUpper(cur);
          if allUpper && nextIsLower {
            words := words + [cur];
            cur := [];
          } else if !allUpper {
            words := words + [cur];
            cur := [];
          }
        }
        cur := cur + [ch];
      } else {
        cur := cur + [ch];
      }
      assert cur == st.cur && words == st.words;
      i := i + 1;
    }
    assert name[i..] == [];
    if cur != [] {
      words := words + [cur];
    }
    SplitWordsFacts(name);
  }

  lemma ConcatSnoc(ws: seq<string>, w: string)
    ensures Concat(ws + [w]) == Concat(ws) + w
  {
    assert (ws + [w])[..|ws|] == ws;
  }

  /** One character keeps the pushed words words and the current word free of
    * separators. */
  lemma FeedFacts(ch: char, nextIsLower: bool, cur: string, words: seq<string>)
    requires NoSeps(cur) && AllWords(words)
    ensures var st := Feed(ch, nextIsLower, cur, words);
      NoSeps(st.cur) && AllWords(st.words)
  {
  }

  /** One character adds itself to the concatenation of the words and the current
    * word, unless it is a separator. */
  lemma FeedConcat(ch: char, nextIsLower: bool, cur: string, words: seq<string>)
    ensures var st := Feed(ch, nextIsLower, cur, words);
      Concat(st.words) + st.cur == Concat(words) + cur + (if IsSep(ch) then [] else [ch])
  {
    if cur != [] {
      ConcatSnoc(words, cur);
    }
  }

  /** Every word pushed is a word. */
  lemma {:induction false} SplitAllWords(rest: string, cur: string, words: seq<string>)
    requires NoSeps(cur) && AllWords(words)
    ensures AllWords(Split(rest, cur, words))
    decreases |rest|
  {
    if rest != [] {
      var st := Feed(rest[0], |rest| > 1 && IsLower(rest[1]), cur, words);
      FeedFacts(rest[0], |rest| > 1 && IsLower(rest[1]), cur, words);
      SplitAllWords(rest[1..], st.cur, st.words);
    }
  }

  /** The words hold the input's characters but its separators, in order. */
  lemma {:induction false} SplitConcat(rest: string, cur: string, words: seq<string>)
    ensures Concat(Split(rest, cur, words)) == Concat(words) + cur + RemoveSeps(rest)
    decreases |rest|
  {
    if rest == [] {
      if cur != [] {
        ConcatSnoc(words, cur);
      }
    } else {
      var nextIsLower := |rest| > 1 && IsLower(rest[1]);
      var st := Feed(rest[0], nextIsLower, cur, words);
      var c := if IsSep(rest[0]) then [] else [rest[0]];
      FeedConcat(rest[0], nextIsLower, cur, words);
      SplitConcat(rest[1..], st.cur, st.words);
      assert Split(rest, cur, words) == Split(rest[1..], st.cur, st.words);
      assert RemoveSeps(rest) == c + RemoveSeps(rest[1..]);
      AppendAssoc(Concat(words) + cur, c, RemoveSeps(rest[1..]));
    }
  }

  /** `split_into_words` never yields an empty word or a separator, and its words put
    * together are the name without its separators. */
  lemma SplitWordsFacts(name: string)
    ensures AllWords(SplitWords(name))
    ensures Concat(SplitWords(name)) == RemoveSeps(name)
  {
    SplitAllWords(name, [], []);
    SplitConcat(name, [], []);
  }

  /** A run without separators or uppercase characters only extends the current word. */
  lemma {:induction false} SplitPlain(w: string, rest: string, cur: string, words: seq<string>)
    requires NoSeps(w) && NoUpper(w)
    ensures Split(w + rest, cur, words) == Split(rest, cur + w, words)
    decreases |w|
  {
    if w != [] {
      var nextIsLower := |w + rest| > 1 && IsLower((w + rest)[1]);
      assert !IsSep(w[0]) && !IsUpper(w[0]);
      assert Feed(w[0], nextIsLower, cur, words) == SplitState(cur + [w[0]], words);
      assert (w + rest)[0] == w[0] && (w + rest)[1..] == w[1..] + rest;
      assert Split(w + rest, cur, words) == Split(w[1..] + rest, cur + [w[0]], words);
      assert cur + [w[0]] + w[1..] == cur + w;
      SplitPlain(w[1..], rest, cur + [w[0]], words);
    } else {
      assert w + rest == rest && cur + w == cur;
    }
  }

  /** Words without uppercase characters, joined by a separator, split back into
    * themselves. */
  lemma {:induction false} SplitJoin(ws: seq<string>, sep: char, words: seq<string>)
    requires IsSep(sep)
    requires forall j :: 0 <= j < |ws| ==> IsWord(ws[j]) && NoUpper(ws[j])
    ensures Split(Join(ws, sep), [], words) == words + ws
    decreases |ws|
  {
    if ws == [] {
    } else if |ws| == 1 {
      SplitPlain(ws[0], [], [], words);
      assert ws[0] + [] == ws[0];
      assert [] + ws[0] == ws[0];
    } else {
      var tail := Join(ws[1..], sep);
      assert Join(ws, sep) == ws[0] + ([sep] + tail);
      SplitPlain(ws[0], [sep] + tail, [], words);
      assert [] + ws[0] == ws[0];
      assert ([sep] + tail)[1..] == tail;
      SplitJoin(ws[1..], sep, words + [ws[0]]);
      assert words + [ws[0]] + ws[1..] == words + ws;
    }
  }

  // ---------------------------------------------------------------------------
  // RenameRule
  // ---------------------------------------------------------------------------

  datatype RenameRule = Lower | Upper | Camel | Pascal | Snake | ScreamingSnake | Kebab | ScreamingKebab

  /** The serde name of each rule. */
  function RuleName(r: RenameRule): string
  {
    match r
    case Lower => "lowercase"
    case Upper => "UPPERCASE"
    case Camel => "camelCase"
    case Pascal => "PascalCase"
    case Snake => "snake_case"
    case ScreamingSnake => "SCREAMING_SNAKE_CASE"
    case Kebab => "kebab-case"
    case ScreamingKebab => "SCREAMING-KEBAB-CASE"
  }

  /** `RenameRule::from_str`: one of the eight serde names, else nothing. */
  function FromStr(s: string): (r: Option<RenameRule>)
    ensures r.Some? ==> RuleName(r.value) == s
  {
    if s == "lowercase" then Some(Lower)
    else if s == "UPPERCASE" then Some(Upper)
    else if s == "camelCase" then Some(Camel)
    else if s == "PascalCase" then Some(Pascal)
    else if s == "snake_case" then Some(Snake)
    else if s == "SCREAMING_SNAKE_CASE" then Some(ScreamingSnake)
    else if s == "kebab-case" then Some(Kebab)
    else if s == "SCREAMING-KEBAB-CASE" then Some(ScreamingKebab)
    else None
  }

  /** `from_str` accepts exactly the eight serde names, each naming its own rule. */
  lemma FromStrExactly(s: string, r: RenameRule)
    ensures FromStr(s) == Some(r) <==> s == RuleName(r)
  {
    if s == RuleName(r) {
      match r
      case Lower =>
      case Upper =>
      case Camel =>
      case Pascal =>
      case Snake =>
      case ScreamingSnake =>
      case Kebab =>
      case ScreamingKebab =>
    }
  }

  /** `capitalize`: the first character uppercased, the rest lowercased. */
  function Capitalize(w: string): (r: string)
    ensures |r| == |w|
    ensures |w| > 0 ==> r[0] == UpperChar(w[0]) && r[1..] == Lowered(w[1..])
  {
    if w == [] then [] else [UpperChar(w[0])] + Lowered(w[1..])
  }

  /** What `capitalize` means: of the strings with the same letters as `w` up to case,
    * the one whose first character is not lowercase and whose other characters are not
    * uppercase, and no other. */
  lemma CapitalizeCharacterized(w: string, r: string)
    ensures r == Capitalize(w) <==>
      |r| == |w| && Lowered(r) == Lowered(w) &&
      (|r| > 0 ==> !IsLower(r[0])) && (forall k :: 1 <= k < |r| ==> !IsUpper(r[k]))
  {
    var c := Capitalize(w);
    forall k | 1 <= k < |c|
      ensures !IsUpper(c[k]) && LowerChar(c[k]) == LowerChar(w[k])
    {
      assert c[k] == c[1..][k - 1];
    }
    if |w| > 0 {
      assert LowerChar(c[0]) == LowerChar(w[0]);
    }
    assert Lowered(c) == Lowered(w);
    if |r| == |w| && Lowered(r) == Lowered(w) &&
       (|r| > 0 ==> !IsLower(r[0])) && (forall k :: 1 <= k < |r| ==> !IsUpper(r[k])) {
      forall k | 0 <= k < |r|
        ensures r[k] == c[k]
      {
        assert Lowered(r)[k] == Lowered(w)[k];
        if k > 0 {
          assert c[k] == c[1..][k - 1];
        }
      }
    }
  }

  function MapCapitalized(ws: seq<string>): (r: seq<string>)
    ensures |r| == |ws| && forall j :: 0 <= j < |ws| ==> r[j] == Capitalize(ws[j])
  {
    seq(|ws|, j requires 0 <= j < |ws| => Capitalize(ws[j]))
  }

  /** The Camel arm: the first word lowercased, every later one capitalized. */
  function CamelJoin(ws: seq<string>): string
  {
    if ws == [] then []
    else CamelJoin(ws[..|ws| - 1]) + (if |ws| == 1 then Lowered(ws[0]) else Capitalize(ws[|ws| - 1]))
  }

  /** `RenameRule::apply` on the words of `name`. */
  function ApplyRule(rule: RenameRule, name: string): string
  {
    var ws := SplitWords(name);
    match rule
    case Lower => Lowered(Concat(ws))
    case Upper => Uppered(Concat(ws))
    case Camel => CamelJoin(ws)
    case Pascal => Concat(MapCapitalized(ws))
    case Snake => Join(MapLowered(ws), '_')
    case ScreamingSnake => Join(MapUppered(ws), '_')
    case Kebab => Join(MapLowered(ws), '-')
    case ScreamingKebab => Join(MapUppered(ws), '-')
  }

  /** `RenameRule::apply`: split the name, then join the case-mapped words. */
  method Apply(rule: RenameRule, name: string) returns (r: string)
    ensures r == ApplyRule(rule, name)
  {
    var words := SplitIntoWords(name);
    match rule
    case Lower => r := Lowered(Concat(words));
    case Upper => r := Uppered(Concat(words));
    case Camel => r := CamelArm(words);
    case Pascal => r := Concat(MapCapitalized(words));
    case Snake => r := Join(MapLowered(words), '_');
    case ScreamingSnake => r := Join(MapUppered(words), '_');
    case Kebab => r := Join(MapLowered(words), '-');
    case ScreamingKebab => r := Join(MapUppered(words), '-');
  }

  /** The Camel arm: the result built word by word. */
  method CamelArm(words: seq<string>) returns (r: string)
    ensures r == CamelJoin(words)
  {
    r := [];
    var i := 0;
    while i < |words|
      invariant 0 <= i <= |words|
      invariant r == CamelJoin(words[..i])
    {
      ghost var prefix := words[..i + 1];
      assert prefix[..i] == words[..i] && |prefix| == i + 1 && prefix[i] == words[i];
      if i == 0 {
        r := r + Lowered(words[i]);
      } else {
        r := r + Capitalize(words[i]);
      }
      i := i + 1;
    }
    assert words[..i] == words;
  }

  // ---------------------------------------------------------------------------
  // What the rules promise
  // ---------------------------------------------------------------------------

  /** Lower and Upper are the name without separators, case-mapped. */
  lemma LowerUpperDropSeps(name: string)
    ensures ApplyRule(Lower, name) == Lowered(RemoveSeps(name))
    ensures ApplyRule(Upper, name) == Uppered(RemoveSeps(name))
  {
    SplitWordsFacts(name);
  }

  /** Camel differs from Pascal only in its first word, which it lowercases. */
  lemma {:induction false} CamelIsPascalButFirst(ws: seq<string>)
    requires |ws| > 0
    ensures CamelJoin(ws) == Lowered(ws[0]) + Concat(MapCapitalized(ws[1..]))
    decreases |ws|
  {
    if |ws| > 1 {
      var init := ws[..|ws| - 1];
      var last := Capitalize(ws[|ws| - 1]);
      CamelIsPascalButFirst(init);
      assert init[0] == ws[0];
      CapitalizedSnoc(ws);
      ConcatSnoc(MapCapitalized(init[1..]), last);
      AppendAssoc(Lowered(ws[0]), Concat(MapCapitalized(init[1..])), last);
    } else {
      assert ws[1..] == [];
    }
  }

  lemma AppendAssoc(a: string, b: string, c: string)
    ensures a + b + c == a + (b + c)
  {
  }

  /** Capitalizing all words but the first grows by the last word capitalized. */
  lemma CapitalizedSnoc(ws: seq<string>)
    requires |ws| > 1
    ensures MapCapitalized(ws[1..]) == MapCapitalized(ws[..|ws| - 1][1..]) + [Capitalize(ws[|ws| - 1])]
  {
    assert ws[1..] == ws[..|ws| - 1][1..] + [ws[|ws| - 1]];
  }

  lemma LoweredTwice(s: string)
    ensures Lowered(Lowered(s)) == Lowered(s)
  {
  }

  /** Lowercasing keeps a word a word and leaves no uppercase character. */
  lemma LoweredWords(ws: seq<string>)
    requires forall j :: 0 <= j < |ws| ==> IsWord(ws[j])
    ensures forall j :: 0 <= j < |ws| ==> IsWord(MapLowered(ws)[j]) && NoUpper(MapLowered(ws)[j])
  {
  }

  /** The words of a Snake or Kebab name are its source's words, lowercased. */
  lemma LoweredJoinSplits(name: string, sep: char)
    requires IsSep(sep)
    ensures SplitWords(Join(MapLowered(SplitWords(name)), sep)) == MapLowered(SplitWords(name))
  {
    SplitWordsFacts(name);
    LoweredWords(SplitWords(name));
    SplitJoin(MapLowered(SplitWords(name)), sep, []);
  }

  /** Snake and Kebab are fixed points: applying either twice is applying it once. */
  lemma SnakeKebabIdempotent(name: string)
    ensures ApplyRule(Snake, ApplyRule(Snake, name)) == ApplyRule(Snake, name)
    ensures ApplyRule(Kebab, ApplyRule(Kebab, name)) == ApplyRule(Kebab, name)
  {
    var ws := MapLowered(SplitWords(name));
    LoweredJoinSplits(name, '_');
    LoweredJoinSplits(name, '-');
    assert MapLowered(ws) == ws by {
      forall j | 0 <= j < |ws|
        ensures MapLowered(ws)[j] == ws[j]
      {
        LoweredTwice(SplitWords(name)[j]);
      }
    }
  }

  /** Snake and Kebab output holds no uppercase character. */
  lemma {:induction false} JoinNoUpper(ws: seq<string>, sep: char)
    requires IsSep(sep) && forall j :: 0 <= j < |ws| ==> NoUpper(ws[j])
    ensures NoUpper(Join(ws, sep))
    decreases |ws|
  {
    if |ws| > 1 {
      JoinNoUpper(ws[1..], sep);
    }
  }

  lemma SnakeKebabNoUpper(name: string)
    ensures NoUpper(ApplyRule(Snake, name)) && NoUpper(ApplyRule(Kebab, name))
  {
    JoinNoUpper(MapLowered(SplitWords(name)), '_');
    JoinNoUpper(MapLowered(SplitWords(name)), '-');
  }

  /** Camel is not a fixed point: "a_b_c" becomes "aBC", and "aBC" becomes "aBc", since
    * "BC" reads as one acronym. */
  lemma CamelNotIdempotent()
    ensures ApplyRule(Camel, "a_b_c") == "aBC"
    ensures ApplyRule(Camel, "aBC") == "aBc"
  {
    SplitSnakeSample();
    CamelSnakeSample();
    SplitCamelSample();
    CamelCamelSample();
  }

  lemma SplitSnakeSample()
    ensures SplitWords("a_b_c") == ["a", "b", "c"]
  {
    calc {
      SplitWords("a_b_c");
      { assert [] + ['a'] == "a"; }
      Split("_b_c", "a", []);
      Split("b_c", [], ["a"]);
      { assert [] + ['b'] == "b"; }
      Split("_c", "b", ["a"]);
      Split("c", [], ["a", "b"]);
      { assert [] + ['c'] == "c"; }
      Split([], "c", ["a", "b"]);
      ["a", "b", "c"];
    }
  }

  lemma CamelSnakeSample()
    ensures CamelJoin(["a", "b", "c"]) == "aBC"
  {
    calc {
      CamelJoin(["a", "b", "c"]);
      { assert ["a", "b", "c"][..2] == ["a", "b"]; }
      CamelJoin(["a", "b"]) + Capitalize("c");
      { assert ["a", "b"][..1] == ["a"]; }
      CamelJoin(["a"]) + Capitalize("b") + Capitalize("c");
      Lowered("a") + Capitalize("b") + Capitalize("c");
      "aBC";
    }
  }

  lemma SplitCamelSample()
    ensures SplitWords("aBC") == ["a", "BC"]
  {
    calc {
      SplitWords("aBC");
      { assert [] + ['a'] == "a"; }
      Split("BC", "a", []);
      { assert !AllUpper("a") by { assert !IsUpper("a"[0]); } }
      Split("C", "B", ["a"]);
      { assert "B" + ['C'] == "BC"; }
      Split([], "BC", ["a"]);
      ["a", "BC"];
    }
  }

  lemma CamelCamelSample()
    ensures CamelJoin(["a", "BC"]) == "aBc"
  {
    calc {
      CamelJoin(["a", "BC"]);
      { assert ["a", "BC"][..1] == ["a"]; }
      Lowered("a") + Capitalize("BC");
      { assert Lowered("C") == "c"; }
      "aBc";
    }
  }

  /** An uppercase character not followed by a lowercase one extends an all-uppercase
    * word. */
  lemma ContinueAcronym(rest: string, cur: string, words: seq<string>)
    requires rest != [] && IsUpper(rest[0]) && AllUpper(cur)
    requires !(|rest| > 1 && IsLower(rest[1]))
    ensures Split(rest, cur, words) == Split(rest[1..], cur + [rest[0]], words)
  {
  }

  /** A lowercase word ends at the first uppercase character, and an acronym at the end
    * stays one word. */
  lemma SplitAcronymLast()
    ensures SplitWords("parseXML") == ["parse", "XML"]
  {
    calc {
      SplitWords("parseXML");
      { SplitPlain("parse", "XML", [], []); assert "parse" + "XML" == "parseXML"; }
      Split("XML", [] + "parse", []);
      { assert [] + "parse" == "parse"; }
      Split("XML", "parse", []);
      { assert !AllUpper("parse") by { assert !IsUpper("parse"[0]); } }
      Split("ML", "X", ["parse"]);
      { ContinueAcronym("ML", "X", ["parse"]); assert "X" + ['M'] == "XM"; }
      Split("L", "XM", ["parse"]);
      { ContinueAcronym("L", "XM", ["parse"]); assert "XM" + ['L'] == "XML"; }
      Split([], "XML", ["parse"]);
      ["parse", "XML"];
    }
  }

  /** An uppercase character followed by a lowercase one ends the word being built and
    * starts the next one. */
  lemma EndAcronym(rest: string, cur: string, words: seq<string>)
    requires |rest| > 1 && IsUpper(rest[0]) && IsLower(rest[1]) && cur != []
    ensures Split(rest, cur, words) == Split(rest[1..], [rest[0]], words + [cur])
  {
  }

  /** The first character that is not a separator starts a word. */
  lemma StartWord(rest: string, words: seq<string>)
    requires rest != [] && !IsSep(rest[0])
    ensures Split(rest, [], words) == Split(rest[1..], [rest[0]], words)
  {
    assert [] + [rest[0]] == [rest[0]];
  }

  /** An acronym followed by a capitalized word splits before the word's capital. */
  lemma SplitAcronymFirst()
    ensures SplitWords("XMLParser") == ["XML", "Parser"]
  {
    ReadAcronym();
    ReadCapitalized();
  }

  /** "XML" is read as one word up to the capital of "Parser". */
  lemma ReadAcronym()
    ensures SplitWords("XMLParser") == Split("Parser", "XML", [])
  {
    ReadX();
    ReadML();
  }

  lemma ReadX()
    ensures SplitWords("XMLParser") == Split("MLParser", "X", [])
  {
    StartWord("XMLParser", []);
    assert "XMLParser"[1..] == "MLParser";
  }

  lemma ReadML()
    ensures Split("MLParser", "X", []) == Split("Parser", "XML", [])
  {
    ContinueAcronymTwice("MLParser", "X", []);
    assert "MLParser"[2..] == "Parser" && "X" + "MLParser"[..2] == "XML";
  }

  /** Two uppercase characters not followed by a lowercase one both extend an
    * all-uppercase word. */
  lemma ContinueAcronymTwice(rest: string, cur: string, words: seq<string>)
    requires |rest| > 2 && IsUpper(rest[0]) && IsUpper(rest[1]) && !IsLower(rest[2]) && AllUpper(cur)
    ensures Split(rest, cur, words) == Split(rest[2..], cur + rest[..2], words)
  {
    ContinueAcronym(rest, cur, words);
    var cur1 := cur + [rest[0]];
    assert AllUpper(cur1) by {
      forall k | 0 <= k < |cur1| ensures IsUpper(cur1[k]) {
        if k < |cur| { assert cur1[k] == cur[k]; }
      }
    }
    ContinueAcronym(rest[1..], cur1, words);
    assert rest[1..][1..] == rest[2..];
    assert cur1 + [rest[1]] == cur + rest[..2];
  }

  /** The capital of "Parser" ends "XML", and "Parser" is read as the last word. */
  lemma ReadCapitalized()
    ensures Split("Parser", "XML", []) == ["XML", "Parser"]
  {
    calc {
      Split("Parser", "XML", []);
      { EndAcronym("Parser", "XML", []); assert "Parser"[1..] == "arser"; assert [] + ["XML"] == ["XML"]; }
      Split("arser", "P", ["XML"]);
      { SplitPlain("arser", [], "P", ["XML"]); assert "arser" + [] == "arser"; assert "P" + "arser" == "Parser"; }
      Split([], "Parser", ["XML"]);
      ["XML", "Parser"];
    }
  }

  /** An uppercase character ends a word that is not all uppercase and starts the next
    * one. */
  lemma EndWord(rest: string, cur: string, words: seq<string>)
    requires rest != [] && IsUpper(rest[0]) && cur != [] && !AllUpper(cur)
    ensures Split(rest, cur, words) == Split(rest[1..], [rest[0]], words + [cur])
  {
  }

  /** A capitalized word with no uppercase letter after its first: read from its capital,
    * after a word that is not all uppercase, it becomes one word. */
  lemma ReadTitleWord(t: string, rest: string, cur: string, words: seq<string>)
    requires |t| > 1 && IsUpper(t[0]) && NoSeps(t[1..]) && NoUpper(t[1..])
    requires cur != [] && !AllUpper(cur)
    ensures Split(t + rest, cur, words) == Split(rest, t, words + [cur])
  {
    assert (t + rest)[0] == t[0] && (t + rest)[1..] == t[1..] + rest;
    EndWord(t + rest, cur, words);
    SplitPlain(t[1..], rest, [t[0]], words + [cur]);
    assert [t[0]] + t[1..] == t;
  }

  /** The camelCase sample: "myFieldName" splits at each capital. */
  lemma SplitCamelName()
    ensures SplitWords("myFieldName") == ["my", "Field", "Name"]
  {
    assert "my" + "FieldName" == "myFieldName";
    SplitLowerThenFieldName("my");
  }

  /** The PascalCase sample: "MyFieldName" splits at each capital after the first. */
  lemma SplitPascalName()
    ensures SplitWords("MyFieldName") == ["My", "Field", "Name"]
  {
    assert "My" + "FieldName" == "MyFieldName";
    assert "My"[1..] == "y";
    SplitTitleThenFieldName("My");
  }

  /** A lowercase word followed by "FieldName" gives three words. */
  lemma SplitLowerThenFieldName(w: string)
    requires w != [] && NoSeps(w) && NoUpper(w)
    ensures SplitWords(w + "FieldName") == [w, "Field", "Name"]
  {
    SplitPlain(w, "FieldName", [], []);
    assert [] + w == w;
    assert !AllUpper(w) by { assert !IsUpper(w[0]); }
    ReadFieldName(w);
  }

  /** A capitalized word followed by "FieldName" gives three words. */
  lemma SplitTitleThenFieldName(w: string)
    requires |w| > 1 && IsUpper(w[0]) && NoSeps(w[1..]) && NoUpper(w[1..])
    ensures SplitWords(w + "FieldName") == [w, "Field", "Name"]
  {
    StartTitleWord(w, "FieldName");
    assert !AllUpper(w) by { assert !IsUpper(w[1..][0]); }
    ReadFieldName(w);
  }

  /** A capitalized word at the start is read up to its end. */
  lemma StartTitleWord(w: string, rest: string)
    requires |w| > 1 && IsUpper(w[0]) && NoSeps(w[1..]) && NoUpper(w[1..])
    ensures Split(w + rest, [], []) == Split(rest, w, [])
  {
    var s := w + rest;
    StartWord(s, []);
    assert s[0] == w[0] && s[1..] == w[1..] + rest;
    SplitPlain(w[1..], rest, [w[0]], []);
    assert [w[0]] + w[1..] == w;
  }

  /** After a word that is not all uppercase, "FieldName" is read as two more words. */
  lemma ReadFieldName(w: string)
    requires w != [] && !AllUpper(w)
    ensures Split("FieldName", w, []) == [w, "Field", "Name"]
  {
    ReadField(w);
    ReadName(w);
  }

  lemma ReadField(w: string)
    requires w != [] && !AllUpper(w)
    ensures Split("FieldName", w, []) == Split("Name", "Field", [w])
  {
    assert "Field" + "Name" == "FieldName";
    assert "Field"[1..] == "ield";
    ReadTitleWord("Field", "Name", w, []);
    assert [] + [w] == [w];
  }

  lemma ReadName(w: string)
    ensures Split("Name", "Field", [w]) == [w, "Field", "Name"]
  {
    assert "Name" + [] == "Name";
    assert "Name"[1..] == "ame";
    assert !AllUpper("Field") by { assert !IsUpper("Field"[1]); }
    ReadTitleWord("Name", [], "Field", [w]);
  }

  /** camelCase of "MyFieldName" lowercases the first word: "myFieldName". */
  lemma CamelPascalSample()
    ensures ApplyRule(Camel, "MyFieldName") == "myFieldName"
  {
    SplitPascalName();
    CamelMyFieldName();
  }

  lemma CamelMyFieldName()
    ensures CamelJoin(["My", "Field", "Name"]) == "myFieldName"
  {
    var ws := ["My", "Field", "Name"];
    assert ws[..2] == ["My", "Field"] && ws[..2][..1] == ["My"] && ws[..2][..1][..0] == [];
    assert CamelJoin(["My"]) == "my" by { assert Lowered("My") == "my"; }
    assert Capitalize("Field") == "Field" by { assert Lowered("ield") == "ield"; }
    assert Capitalize("Name") == "Name" by { assert Lowered("ame") == "ame"; }
    calc {
      CamelJoin(ws);
      CamelJoin(["My", "Field"]) + Capitalize("Name");
      CamelJoin(["My"]) + Capitalize("Field") + Capitalize("Name");
      "my" + "Field" + "Name";
      "myFieldName";
    }
  }

  /** UPPERCASE of "my_field_name" drops the separators: "MYFIELDNAME". */
  lemma UpperSnakeSample()
    ensures ApplyRule(Upper, "my_field_name") == "MYFIELDNAME"
  {
    SplitSnakeName();
    UpperMyFieldName();
  }

  lemma SplitSnakeName()
    ensures SplitWords("my_field_name") == ["my", "field", "name"]
  {
    var ws := ["my", "field", "name"];
    assert Join(ws, '_') == "my_field_name" by {
      assert ws[1..] == ["field", "name"] && ws[1..][1..] == ["name"];
    }
    assert forall j :: 0 <= j < |ws| ==> IsWord(ws[j]) && NoUpper(ws[j]);
    SplitJoin(ws, '_', []);
  }

  lemma UpperMyFieldName()
    ensures Uppered(Concat(["my", "field", "name"])) == "MYFIELDNAME"
  {
    var ws := ["my", "field", "name"];
    assert ws[..2] == ["my", "field"] && ws[..2][..1] == ["my"] && ws[..2][..1][..0] == [];
    calc {
      Concat(ws);
      Concat(["my", "field"]) + "name";
      Concat(["my"]) + "field" + "name";
      Concat([]) + "my" + "field" + "name";
      "myfieldname";
    }
  }
}
