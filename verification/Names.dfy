/** `live/names.py`: roster names leave as `[사람N]` and come back as the form they stood for.

    `Pieces` cuts a text into what is left alone and the calls of a form, leftmost and longest first; the scan over
    the texts writes each call as its person's mark. What the model may see, who gets which number and when the texts
    come back exactly are lemmas about the pieces. */
module Names {
  import opened Characters
  import opened Replacement

  // ---- The forms a person is called by ----------------------------------------------------------------

  /** `str.split()`: the words between whitespace, scanning from `i` with the word `word` begun. */
  function WordsFrom(t: string, i: nat, word: string): seq<string>
    requires i <= |t|
    decreases |t| - i
  {
    var finished := if word == [] then [] else [word];
    if i == |t| then finished
    else if IsSpace(t[i]) then finished + WordsFrom(t, i + 1, [])
    else WordsFrom(t, i + 1, word + [t[i]])
  }

  function Words(t: string): seq<string> { WordsFrom(t, 0, []) }

  function Join(words: seq<string>, sep: string): string {
    if words == [] then [] else if |words| == 1 then words[0] else words[0] + sep + Join(words[1..], sep)
  }

  predicate AllHangul(t: string) { t != [] && forall i | 0 <= i < |t| :: IsHangul(t[i]) }

  /** The full name of three syllables. */
  predicate IsFullName(t: string) { |t| == 3 && AllHangul(t) }

  function FormsBeforeCut(name: string): seq<string> {
    var words := Words(name);
    if |words| >= 2 && forall w | w in words :: AllHangul(w) then
      var joined := Join(words, []);
      [name, joined] +
      if |words| == 2 then
        var first, second := words[0], words[1];
        [second + first] +
        (if |first| == 1 && |second| >= 2 then [second]
         else if |second| == 1 && |first| >= 2 then [first] else [])
      else if IsFullName(joined) then [joined[1..]] else []
    else if IsFullName(name) then [name, name[1..]]
    else [name]
  }

  /** `dict.fromkeys`: each once, where it first stands. */
  function Once(forms: seq<string>): (r: seq<string>)
    ensures forall f :: f in r <==> f in forms
    ensures forall i, j | 0 <= i < j < |r| :: r[i] != r[j]
  {
    if forms == [] then []
    else
      var front := Once(forms[..|forms| - 1]);
      assert forms == forms[..|forms| - 1] + [forms[|forms| - 1]];
      if forms[|forms| - 1] in front then front else front + [forms[|forms| - 1]]
  }

  /** What comes later changes nothing of what is there already: each stays where it first stood. */
  lemma {:induction false} OnceInOrder(forms: seq<string>, n: nat)
    requires n <= |forms|
    ensures Once(forms[..n]) <= Once(forms)
  {
    if n < |forms| {
      OnceInOrder(forms[..|forms| - 1], n);
      assert forms[..|forms| - 1][..n] == forms[..n];
    } else {
      assert forms[..n] == forms;
    }
  }

  function LongEnough(forms: seq<string>): (r: seq<string>)
    ensures forall f :: f in r <==> f in forms && |f| >= 2
  {
    if forms == [] then []
    else if |forms[0]| >= 2 then [forms[0]] + LongEnough(forms[1..]) else LongEnough(forms[1..])
  }

  /** `_variants`. */
  function Variants(name: string): seq<string> { LongEnough(Once(FormsBeforeCut(name))) }

  /** The roster, each name with its spaces made one, empty names left out. */
  function Roster(names: seq<string>): set<string> {
    set n | n in names && Strip(n) != [] :: Join(Words(n), " ")
  }

  // ---- What the forms of a name are -----------------------------------------------------------------------

  /** A word: not empty, and without whitespace. */
  ghost predicate IsWord(w: string) { w != [] && forall c | c in w :: !IsSpace(c) }

  ghost predicate AreWords(ws: seq<string>) { forall w | w in ws :: IsWord(w) }

  /** The words stand in the text in this order, with whitespace between them, and nothing else does. */
  ghost predicate Spread(t: string, ws: seq<string>)
    decreases |ws|
  {
    if ws == [] then Blank(t)
    else exists lead, rest :: SpreadAt(t, ws, lead, rest) && Spread(rest, ws[1..])
  }

  ghost predicate SpreadAt(t: string, ws: seq<string>, lead: string, rest: string)
    requires ws != []
  {
    t == lead + ws[0] + rest && Blank(lead) && IsWord(ws[0]) && (rest == [] || IsSpace(rest[0]))
  }

  /** The words with one space between each two. */
  ghost function Spelled(ws: seq<string>): string
    requires ws != []
  {
    if |ws| == 1 then ws[0] else ws[0] + " " + Spelled(ws[1..])
  }

  ghost function Concat(ws: seq<string>): string { if ws == [] then [] else ws[0] + Concat(ws[1..]) }

  /** Splitting after a run of whitespace and the word that follows it. */
  lemma {:induction false} SplitsWord(t: string, i: nat, word: string, j: nat)
    requires i <= j <= |t| && (forall k | i <= k < j :: !IsSpace(t[k]))
    ensures WordsFrom(t, i, word) == WordsFrom(t, j, word + t[i..j])
    decreases j - i
  {
    if i < j {
      SplitsWord(t, i + 1, word + [t[i]], j);
      assert word + [t[i]] + t[i + 1..j] == word + t[i..j];
    } else {
      assert word + t[i..j] == word;
    }
  }

  lemma {:induction false} SplitsBlank(t: string, i: nat, j: nat)
    requires i <= j <= |t| && forall k | i <= k < j :: IsSpace(t[k])
    ensures WordsFrom(t, i, []) == WordsFrom(t, j, [])
    decreases j - i
  {
    if i < j { SplitsBlank(t, i + 1, j); }
  }

  /** What is split off does not matter to the rest. */
  lemma {:induction false} SplitsOn(t: string, i: nat, u: string, j: nat, word: string)
    requires i <= |t| && j <= |u| && t[i..] == u[j..]
    ensures WordsFrom(t, i, word) == WordsFrom(u, j, word)
    decreases |t| - i
  {
    if i < |t| {
      assert t[i] == t[i..][0] == u[j..][0] == u[j];
      assert t[i + 1..] == t[i..][1..] && u[j + 1..] == u[j..][1..];
      SplitsOn(t, i + 1, u, j + 1, if IsSpace(t[i]) then [] else word + [t[i]]);
    } else {
      assert |u[j..]| == 0;
    }
  }

  lemma PartsOfText(t: string, ws: seq<string>, lead: string, rest: string)
    requires ws != [] && SpreadAt(t, ws, lead, rest)
    ensures var i, j := |lead|, |lead| + |ws[0]|;
      && j <= |t| && t[i..j] == ws[0] && t[j..] == rest && Apart(t, i, j)
  {
    hide IsSpace;
    var word := ws[0];
    forall k | 0 <= k < |lead| ensures IsSpace(t[k]) { assert lead[k] in lead; }
    forall k | |lead| <= k < |lead| + |word| ensures !IsSpace(t[k]) { assert word[k - |lead|] in word; }
    if rest != [] { assert t[|lead| + |word|] == rest[0]; }
  }

  /** Up to `i` all is whitespace, and from `i` to `j` a word stands. */
  ghost predicate Apart(t: string, i: nat, j: nat) {
    && i < j <= |t| && (forall k | 0 <= k < i :: IsSpace(t[k])) && (forall k | i <= k < j :: !IsSpace(t[k]))
    && (j < |t| ==> IsSpace(t[j]))
  }

  lemma SplitsUpToWord(t: string, i: nat, j: nat)
    requires Apart(t, i, j)
    ensures Words(t) == WordsFrom(t, j, t[i..j])
  {
    SplitsBlank(t, 0, i);
    SplitsWord(t, i, [], j);
    assert [] + t[i..j] == t[i..j];
  }

  lemma SplitsAfterWord(t: string, i: nat, j: nat, rest: string)
    requires Apart(t, i, j) && t[j..] == rest
    ensures WordsFrom(t, j, t[i..j]) == [t[i..j]] + Words(rest)
  {
    hide IsSpace;
    if rest != [] {
      assert t[j] == rest[0] && t[j + 1..] == rest[1..];
      SplitsOn(t, j + 1, rest, 1, []);
      assert WordsFrom(rest, 0, []) == [] + WordsFrom(rest, 1, []);
    }
  }

  /** `str.split` finds just the words the text is made of. */
  lemma {:induction false} WordsOfSpread(t: string, ws: seq<string>)
    requires Spread(t, ws)
    ensures Words(t) == ws
    decreases |ws|
  {
    if ws == [] {
      assert forall k | 0 <= k < |t| :: t[k] in t;
      SplitsBlank(t, 0, |t|);
    } else {
      hide WordsFrom, Apart, SpreadAt;
      var lead, rest :| SpreadAt(t, ws, lead, rest) && Spread(rest, ws[1..]);
      PartsOfText(t, ws, lead, rest);
      SplitsUpToWord(t, |lead|, |lead| + |ws[0]|);
      SplitsAfterWord(t, |lead|, |lead| + |ws[0]|, rest);
      WordsOfSpread(rest, ws[1..]);
    }
  }

  /** Every text is such words. */
  lemma {:induction false} SpreadExists(t: string) returns (ws: seq<string>)
    ensures Spread(t, ws)
    decreases |t|
  {
    var i := RunEnd(t, 0, true);
    var j := RunEnd(t, i, false);
    if i == |t| {
      ws := [];
      assert forall c | c in t :: exists k :: 0 <= k < |t| && t[k] == c;
    } else {
      var later := SpreadExists(t[j..]);
      ws := [t[i..j]] + later;
      assert t == t[..i] + t[i..j] + t[j..];
      assert ws[1..] == later;
      RunIs(t, 0, i, true);
      RunIs(t, i, j, false);
      assert SpreadAt(t, ws, t[..i], t[j..]);
    }
  }

  /** Where the run of whitespace, or of other characters, from `i` on ends. */
  ghost function RunEnd(t: string, i: nat, blank: bool): (j: nat)
    requires i <= |t|
    ensures i <= j <= |t| && (forall k | i <= k < j :: IsSpace(t[k]) == blank) && (j < |t| ==> IsSpace(t[j]) != blank)
    decreases |t| - i
  {
    if i < |t| && IsSpace(t[i]) == blank then RunEnd(t, i + 1, blank) else i
  }

  lemma RunIs(t: string, i: nat, j: nat, blank: bool)
    requires i <= j <= |t| && forall k | i <= k < j :: IsSpace(t[k]) == blank
    ensures forall c | c in t[i..j] :: IsSpace(c) == blank
  {
    forall c | c in t[i..j] ensures IsSpace(c) == blank {
      var k :| 0 <= k < |t[i..j]| && t[i..j][k] == c;
      assert t[i + k] == c;
    }
  }

  lemma WordsExactly(t: string, ws: seq<string>)
    ensures Words(t) == ws <==> Spread(t, ws)
  {
    if Words(t) == ws {
      var found := SpreadExists(t);
      WordsOfSpread(t, found);
    } else if Spread(t, ws) {
      WordsOfSpread(t, ws);
    }
  }

  lemma {:induction false} SpelledIsJoined(ws: seq<string>)
    requires ws != []
    ensures Join(ws, " ") == Spelled(ws) && Join(ws, []) == Concat(ws)
  {
    if |ws| == 1 {
      assert Concat(ws) == ws[0] + Concat(ws[1..]) == ws[0];
    } else {
      SpelledIsJoined(ws[1..]);
      assert ws[0] + [] + Join(ws[1..], []) == ws[0] + Join(ws[1..], []);
    }
  }

  lemma {:induction false} SpelledIsSpread(ws: seq<string>)
    requires ws != [] && AreWords(ws)
    ensures Spread(Spelled(ws), ws)
  {
    hide IsSpace, IsWord, SpreadAt;
    assert ws[0] in ws;
    if |ws| == 1 {
      WordAlone(ws);
      assert Spread([], ws[1..]);
    } else {
      var later := ws[1..];
      assert forall w | w in later :: w in ws;
      SpelledIsSpread(later);
      WordBefore(ws, Spelled(later));
      SpreadAfterSpace(Spelled(later), later);
    }
  }

  lemma WordAlone(ws: seq<string>)
    requires |ws| == 1 && IsWord(ws[0])
    ensures SpreadAt(ws[0], ws, [], [])
  {
    assert ws[0] == [] + ws[0] + [];
  }

  lemma WordBefore(ws: seq<string>, later: string)
    requires ws != [] && IsWord(ws[0])
    ensures SpreadAt(ws[0] + " " + later, ws, [], " " + later)
  {
    SpaceIsSpace();
    assert ws[0] + " " + later == [] + ws[0] + (" " + later);
  }

  lemma SpaceIsSpace()
    ensures IsSpace(' ')
  {
    LayoutFacts(' ');
    assert InRanges(' ' as int, SPACES[1..]);
  }

  lemma SpreadAfterSpace(t: string, ws: seq<string>)
    requires ws != [] && Spread(t, ws)
    ensures Spread(" " + t, ws)
  {
    SpaceIsSpace();
    var lead, rest :| SpreadAt(t, ws, lead, rest) && Spread(rest, ws[1..]);
    assert " " + t == (" " + lead) + ws[0] + rest;
    assert SpreadAt(" " + t, ws, " " + lead, rest);
  }

  /** The forms of a name of Hangul words besides the name itself: the words run together; of two words the second
      before the first, and the longer alone when the other is one syllable; of one word or more than two that make
      three syllables, the last two. */
  ghost predicate HangulForm(ws: seq<string>, f: string) {
    || (|ws| >= 2 && f == Concat(ws))
    || (|ws| == 2 && (f == ws[1] + ws[0] || (|ws[0]| == 1 && f == ws[1]) || (|ws[1]| == 1 && f == ws[0])))
    || (|ws| != 2 && |Concat(ws)| == 3 && f == Concat(ws)[1..])
  }

  /** What a person whose name is made of these words is called by: two characters or more, and the name, or, when every
      character of every word is Hangul, one of those forms. */
  lemma HasFormExactly(ws: seq<string>, f: string)
    requires ws != [] && AreWords(ws)
    ensures HasForm(Spelled(ws), f) <==>
      |f| >= 2 && (f == Spelled(ws) || ((forall w, c | w in ws && c in w :: IsHangul(c)) && HangulForm(ws, f)))
  {
    hide Words, IsHangul, Once, Join, Spread, IsSpace, FormsBeforeCut, HangulForm, Spelled, Concat;
    var name := Spelled(ws);
    SpelledIsSpread(ws);
    WordsOfSpread(name, ws);
    AllHangulWords(ws);
    if |ws| == 1 { FormsOfOneWord(ws, f); } else { FormsOfWords(ws, f); }
  }

  lemma FormsOfOneWord(ws: seq<string>, f: string)
    requires |ws| == 1 && AreWords(ws) && Words(Spelled(ws)) == ws
    ensures f in FormsBeforeCut(Spelled(ws)) <==>
      f == Spelled(ws) || ((forall w | w in ws :: AllHangul(w)) && HangulForm(ws, f))
  {
    hide Words, IsHangul, IsWord;
    assert Concat(ws) == ws[0] + Concat(ws[1..]) == ws[0];
    assert ws[0] in ws;
  }

  lemma FormsOfWords(ws: seq<string>, f: string)
    requires |ws| >= 2 && AreWords(ws) && Words(Spelled(ws)) == ws
    ensures |f| >= 2 ==>
      (f in FormsBeforeCut(Spelled(ws)) <==>
       f == Spelled(ws) || ((forall w | w in ws :: AllHangul(w)) && HangulForm(ws, f)))
  {
    hide Words, IsWord, Concat, Spelled, Join, IsHangul;
    SpelledIsJoined(ws);
    TwoWordsAreNoFullName(ws);
    if forall w | w in ws :: AllHangul(w) {
      ConcatIsHangul(ws);
      if |ws| == 2 { assert ws[0] in ws && ws[1] in ws; }
    }
  }

  lemma {:induction false} ConcatIsHangul(ws: seq<string>)
    requires ws != [] && forall w | w in ws :: AllHangul(w)
    ensures AllHangul(Concat(ws))
  {
    hide IsHangul;
    assert ws[0] in ws;
    if |ws| > 1 {
      assert forall w | w in ws[1..] :: w in ws;
      ConcatIsHangul(ws[1..]);
    } else {
      assert Concat(ws) == ws[0] + Concat(ws[1..]) == ws[0];
    }
  }

  lemma AllHangulWords(ws: seq<string>)
    requires AreWords(ws)
    ensures (forall w | w in ws :: AllHangul(w)) <==> (forall w, c | w in ws && c in w :: IsHangul(c))
  {
    hide IsHangul, IsSpace;
    forall w | w in ws ensures AllHangul(w) <==> forall c | c in w :: IsHangul(c) { assert IsWord(w); }
  }

  /** A name of several words holds a space. */
  lemma TwoWordsAreNoFullName(ws: seq<string>)
    requires |ws| >= 2
    ensures !IsFullName(Spelled(ws))
  {
    assert Spelled(ws)[|ws[0]|] == ' ';
  }

  /** The roster holds each name that is not blank, its words with one space between them, and nothing else. */
  lemma RosterExactly(names: seq<string>, n: string)
    ensures n in Roster(names) <==> exists t, ws :: t in names && ws != [] && Spread(t, ws) && n == Spelled(ws)
  {
    hide WordsFrom, Spread, IsSpace;
    forall t: string ensures Strip(t) != [] <==> Words(t) != [] { StripsToWords(t); }
    if n in Roster(names) {
      var t :| t in names && Strip(t) != [] && n == Join(Words(t), " ");
      WordsExactly(t, Words(t));
      SpelledIsJoined(Words(t));
    }
    if t, ws :| t in names && ws != [] && Spread(t, ws) && n == Spelled(ws) {
      WordsExactly(t, ws);
      SpelledIsJoined(ws);
    }
  }

  lemma StripsToWords(t: string)
    ensures Strip(t) != [] <==> Words(t) != []
  {
    hide WordsFrom, Spread, IsSpace;
    WordsExactly(t, []);
    StripsBlank(t);
    BlankIsSpread(t);
  }

  lemma BlankIsSpread(t: string)
    ensures Spread(t, []) <==> Blank(t)
  {
  }

  // ---- Whose form it is -------------------------------------------------------------------------------

  /** Who is called by each form. */
  type Owners = m: map<string, set<string>> | forall f | f in m :: |f| >= 2 && m[f] != {} witness map[]

  predicate HasForm(name: string, form: string) { form in Variants(name) }

  predicate Owns(owners: Owners, form: string, name: string) { form in owners && name in owners[form] }

  /** `owners` holds, for each form of a name of `roster`, just the names that have it. */
  ghost predicate Owned(owners: Owners, roster: set<string>) {
    forall f, n :: Owns(owners, f, n) <==> n in roster && HasForm(n, f)
  }

  /** `owners.setdefault(form, set()).add(name)`. */
  function WithOwner(owners: Owners, form: string, name: string): (more: Owners)
    requires |form| >= 2
    ensures forall f, n :: Owns(more, f, n) <==> Owns(owners, f, n) || (n == name && f == form)
  {
    owners[form := (if form in owners then owners[form] else {}) + {name}]
  }

  method AddForms(owners: Owners, name: string, forms: seq<string>) returns (more: Owners)
    requires forall f | f in forms :: |f| >= 2
    ensures forall f, n :: Owns(more, f, n) <==> Owns(owners, f, n) || (n == name && f in forms)
  {
    more := owners;
    for i := 0 to |forms|
      invariant forall f, n :: Owns(more, f, n) <==> Owns(owners, f, n) || (n == name && f in forms[..i])
    {
      more := WithOwner(more, forms[i], name);
      assert forms[..i + 1] == forms[..i] + [forms[i]];
    }
    assert forms[..|forms|] == forms;
  }

  method CollectOwners(roster: set<string>) returns (owners: Owners)
    ensures Owned(owners, roster)
  {
    owners := map[];
    var todo := roster;
    while todo != {}
      invariant todo <= roster && Owned(owners, roster - todo)
    {
      var name :| name in todo;
      owners := AddForms(owners, name, Variants(name));
      todo := todo - {name};
    }
    assert roster - {} == roster;
  }

  /** The one name a form belongs to; a form two people share is its own person. */
  function Person(owners: Owners, form: string): string
    requires form in owners
  {
    var s := owners[form];
    if |s| == 1 then Singleton(s); var x :| x in s && s == {x}; x else "shared:" + form
  }

  lemma Singleton(s: set<string>)
    requires |s| == 1
    ensures exists x :: x in s && s == {x}
    ensures forall x, y | x in s && y in s :: x == y
  {
    var x :| x in s;
    assert |s - {x}| == 0;
    assert s == {x};
  }

  // ---- Placeholders -----------------------------------------------------------------------------------

  function Decimal(n: nat): (d: string)
    ensures d != [] && forall i | 0 <= i < |d| :: IsAsciiDigit(d[i])
  {
    var last := [('0' as int + n % 10) as char];
    if n < 10 then last else Decimal(n / 10) + last
  }

  lemma {:induction false} DecimalInjective(m: nat, n: nat)
    requires Decimal(m) == Decimal(n)
    ensures m == n
  {
    var dm, dn := Decimal(m), Decimal(n);
    assert dm[|dm| - 1] == ('0' as int + m % 10) as char && dn[|dn| - 1] == ('0' as int + n % 10) as char;
    assert m % 10 == n % 10;
    assert m >= 10 <==> |dm| > 1;
    assert n >= 10 <==> |dn| > 1;
    if m >= 10 {
      assert Decimal(m / 10) == dm[..|dm| - 1] && Decimal(n / 10) == dn[..|dn| - 1];
      DecimalInjective(m / 10, n / 10);
    }
  }

  /** The word a placeholder holds before its number. */
  const PERSON: string := "\U{C0AC}\U{B78C}"

  /** `[사람n]`. */
  function Mark(n: nat): string { "[" + PERSON + Decimal(n) + "]" }

  // ---- Scanning ---------------------------------------------------------------------------------------

  /** The person each form stands for; a form has two characters or more. */
  type Persons = m: map<string, string> | forall f | f in m :: |f| >= 2 witness map[]

  function PersonsOf(owners: Owners): Persons { map f | f in owners :: Person(owners, f) }

  predicate FormAt(person: Persons, t: string, i: nat, k: nat) { i + k <= |t| && t[i..i + k] in person }

  /** What the pattern finds at `i`, the longest alternative first: the length of the longest form of at most
      `n` characters that stands there, 0 when none does. */
  function LongestAt(person: Persons, t: string, i: nat, n: nat): (k: nat)
    requires i + n <= |t|
    ensures k <= n && (k > 0 ==> FormAt(person, t, i, k))
    ensures forall j | k < j <= n :: !FormAt(person, t, i, j)
  {
    if n == 0 || FormAt(person, t, i, n) then n else LongestAt(person, t, i, n - 1)
  }

  function FoundAt(person: Persons, t: string, i: nat): nat
    requires i <= |t|
  {
    LongestAt(person, t, i, |t| - i)
  }

  /** What is found is the longest form that stands there, so that no form is cut off in the middle of a longer one. */
  lemma LongestIsFound(person: Persons, t: string, i: nat, form: string)
    requires form in person && i + |form| <= |t| && t[i..i + |form|] == form
    ensures var k := FoundAt(person, t, i); |form| <= k && i + k <= |t| && t[i..i + k] in person
  {
    assert FormAt(person, t, i, |form|);
    assert FormAt(person, t, i, FoundAt(person, t, i));
  }

  datatype Piece = Plain(c: char) | Called(form: string)

  /** The text from `i` on as the scan takes it apart. */
  function Pieces(person: Persons, t: string, i: nat): (ps: seq<Piece>)
    requires i <= |t|
    ensures forall k | 0 <= k < |ps| :: ps[k].Called? ==> ps[k].form in person
    decreases |t| - i
  {
    if i == |t| then []
    else
      var k := FoundAt(person, t, i);
      if k == 0 then [Plain(t[i])] + Pieces(person, t, i + 1)
      else [Called(t[i..i + k])] + Pieces(person, t, i + k)
  }

  function Calls(ps: seq<Piece>): (r: seq<string>) {
    if ps == [] then []
    else if ps[0].Called? then [ps[0].form] + Calls(ps[1..])
    else Calls(ps[1..])
  }

  lemma {:induction false} CallsAreCalled(ps: seq<Piece>)
    ensures forall f | f in Calls(ps) :: Called(f) in ps
  {
    if ps != [] { CallsAreCalled(ps[1..]); }
  }

  /** `numbers` and `surface`. */
  datatype Naming = Naming(numbers: map<string, nat>, surface: map<string, string>)

  const UNNAMED := Naming(map[], map[])

  /** What `placeholder` does to the two dicts. */
  function Step(person: Persons, naming: Naming, form: string): (r: Naming)
    requires form in person
    ensures person[form] in r.numbers
  {
    var p := person[form];
    var numbers := if p in naming.numbers then naming.numbers else naming.numbers[p := |naming.numbers| + 1];
    var marked := Mark(numbers[p]);
    Naming(numbers, if marked in naming.surface then naming.surface else naming.surface[marked := form])
  }

  ghost predicate AllIn(forms: seq<string>, person: Persons) { forall f | f in forms :: f in person }

  function After(person: Persons, calls: seq<string>): (r: Naming)
    requires AllIn(calls, person)
    ensures forall f | f in calls :: person[f] in r.numbers
  {
    if calls == [] then UNNAMED
    else
      assert calls == calls[..|calls| - 1] + [calls[|calls| - 1]];
      Step(person, After(person, calls[..|calls| - 1]), calls[|calls| - 1])
  }

  /** The number a form goes by; 0 for one that has none yet. */
  function NumberOf(person: Persons, numbers: map<string, nat>, form: string): nat {
    if form in person && person[form] in numbers then numbers[person[form]] else 0
  }

  function Shown(p: Piece, person: Persons, numbers: map<string, nat>): string {
    if p.Plain? then [p.c] else Mark(NumberOf(person, numbers, p.form))
  }

  function Render(ps: seq<Piece>, person: Persons, numbers: map<string, nat>): string {
    if ps == [] then [] else Shown(ps[0], person, numbers) + Render(ps[1..], person, numbers)
  }

  lemma {:induction false} RenderSnoc(ps: seq<Piece>, p: Piece, person: Persons, numbers: map<string, nat>)
    ensures Render(ps + [p], person, numbers) == Render(ps, person, numbers) + Shown(p, person, numbers)
  {
    hide Shown;
    if ps == [] {
      assert ps + [p] == [p] && [p][1..] == [];
    } else {
      assert (ps + [p])[1..] == ps[1..] + [p];
      RenderSnoc(ps[1..], p, person, numbers);
    }
  }

  /** Every call among the pieces has a number. */
  ghost predicate Numbered(ps: seq<Piece>, person: Persons, numbers: map<string, nat>) {
    forall i | 0 <= i < |ps| :: ps[i].Called? ==> ps[i].form in person && person[ps[i].form] in numbers
  }

  /** Numbers given later change nothing already written. */
  lemma {:induction false} RenderLater(ps: seq<Piece>, person: Persons, numbers: map<string, nat>,
                                       later: map<string, nat>)
    requires Numbered(ps, person, numbers) && Grows(numbers, later)
    ensures Numbered(ps, person, later) && Render(ps, person, later) == Render(ps, person, numbers)
  {
    if ps != [] { RenderLater(ps[1..], person, numbers, later); }
  }

  ghost predicate Grows(numbers: map<string, nat>, later: map<string, nat>) {
    forall p | p in numbers :: p in later && later[p] == numbers[p]
  }

  lemma {:induction false} CallsSnoc(ps: seq<Piece>, p: Piece)
    ensures Calls(ps + [p]) == Calls(ps) + if p.Called? then [p.form] else []
  {
    if ps != [] {
      assert (ps + [p])[1..] == ps[1..] + [p];
      CallsSnoc(ps[1..], p);
    }
  }

  lemma AfterSnoc(person: Persons, calls: seq<string>, form: string)
    requires AllIn(calls, person) && form in person
    ensures AllIn(calls + [form], person)
    ensures After(person, calls + [form]) == Step(person, After(person, calls), form)
    ensures Grows(After(person, calls).numbers, After(person, calls + [form]).numbers)
  {
    assert (calls + [form])[..|calls|] == calls;
  }

  /** The two dicts `placeholder` fills while the texts are scanned. */
  class Numbering {
    var numbers: map<string, nat>
    var surface: map<string, string>

    constructor ()
      ensures numbers == map[] && surface == map[]
    {
      numbers, surface := map[], map[];
    }

    function Value(): Naming
      reads this
    {
      Naming(numbers, surface)
    }

    method Placeholder(person: Persons, form: string) returns (marked: string)
      requires form in person
      modifies this
      ensures Value() == Step(person, old(Value()), form)
      ensures marked == Mark(numbers[person[form]])
    {
      var p := person[form];
      if p !in numbers { numbers := numbers[p := |numbers| + 1]; }
      marked := Mark(numbers[p]);
      if marked !in surface { surface := surface[marked := form]; }
    }

    /** `pattern.sub(placeholder, text)`. */
    method SubstituteIn(person: Persons, t: string, ghost before: seq<string>) returns (out: string)
      requires AllIn(before, person) && Value() == After(person, before)
      modifies this
      ensures Written(person, before, Pieces(person, t, 0), Value(), out)
      ensures Grows(old(numbers), numbers)
    {
      hide Pieces, Render, Calls, After, Step;
      out := [];
      var i := 0;
      ghost var done: seq<Piece> := [];
      WritesNothing(person, before, Value());
      while i < |t|
        invariant Reached(person, t, done, i) && Written(person, before, done, Value(), out)
        invariant Grows(old(numbers), numbers)
      {
        i, out, done := TakeNext(person, t, i, out, before, done);
      }
      AtEnd(person, t, done);
    }

    /** One match, or one character, of the scan. */
    method TakeNext(person: Persons, t: string, i: nat, out: string, ghost before: seq<string>, ghost done: seq<Piece>)
      returns (next: nat, longer: string, ghost further: seq<Piece>)
      requires i < |t| && Reached(person, t, done, i) && Written(person, before, done, Value(), out)
      modifies this
      ensures i < next && Reached(person, t, further, next) && Written(person, before, further, Value(), longer)
      ensures Grows(old(numbers), numbers)
    {
      var k := FoundAt(person, t, i);
      if k == 0 {
        WritesPlain(person, before, done, Value(), out, t[i]);
        next, longer, further := i + 1, out + [t[i]], done + [Plain(t[i])];
      } else {
        var form := t[i..i + k];
        WritesCalled(person, before, done, Value(), out, form);
        var marked := Placeholder(person, form);
        next, longer, further := i + k, out + marked, done + [Called(form)];
      }
      PieceTaken(person, t, i, done, further[|done|], next);
    }
  }

  lemma AtEnd(person: Persons, t: string, done: seq<Piece>)
    requires Reached(person, t, done, |t|)
    ensures done == Pieces(person, t, 0)
  {
    assert done + [] == done;
  }

  lemma WritesNothing(person: Persons, before: seq<string>, naming: Naming)
    requires AllIn(before, person) && naming == After(person, before)
    ensures Written(person, before, [], naming, [])
  {
    assert before + [] == before;
  }

  /** The scan has taken `done` and stands at `i`. */
  ghost predicate Reached(person: Persons, t: string, done: seq<Piece>, i: nat) {
    i <= |t| && done + Pieces(person, t, i) == Pieces(person, t, 0)
  }

  /** The pieces in `done` have been scanned, after texts that held the calls in `before`. */
  ghost predicate Written(person: Persons, before: seq<string>, done: seq<Piece>, naming: Naming, out: string) {
    && AllIn(before + Calls(done), person) && naming == After(person, before + Calls(done))
    && Numbered(done, person, naming.numbers) && out == Render(done, person, naming.numbers)
  }

  lemma WritesPlain(person: Persons, before: seq<string>, done: seq<Piece>, naming: Naming, out: string, c: char)
    requires Written(person, before, done, naming, out)
    ensures Written(person, before, done + [Plain(c)], naming, out + [c])
  {
    CallsSnoc(done, Plain(c));
    assert Calls(done) + [] == Calls(done);
    RenderSnoc(done, Plain(c), person, naming.numbers);
  }

  lemma WritesCalled(person: Persons, before: seq<string>, done: seq<Piece>, naming: Naming, out: string, form: string)
    requires Written(person, before, done, naming, out) && form in person
    ensures var next := Step(person, naming, form);
      && Written(person, before, done + [Called(form)], next, out + Mark(next.numbers[person[form]]))
      && Grows(naming.numbers, next.numbers)
  {
    hide Render, Calls, After, Mark;
    var calls, next := before + Calls(done), Step(person, naming, form);
    CallsSnoc(done, Called(form));
    assert before + Calls(done + [Called(form)]) == calls + [form];
    AfterSnoc(person, calls, form);
    RenderLater(done, person, naming.numbers, next.numbers);
    RenderSnoc(done, Called(form), person, next.numbers);
  }

  lemma PieceTaken(person: Persons, t: string, i: nat, done: seq<Piece>, piece: Piece, next: nat)
    requires i < |t|
    requires var k := FoundAt(person, t, i);
      piece == (if k == 0 then Plain(t[i]) else Called(t[i..i + k])) && next == i + (if k == 0 then 1 else k)
    ensures next <= |t| && done + Pieces(person, t, i) == done + [piece] + Pieces(person, t, next)
  {
    hide LongestAt;
    var k, rest := FoundAt(person, t, i), Pieces(person, t, next);
    assert Pieces(person, t, i) == [piece] + rest;
    assert done + ([piece] + rest) == done + [piece] + rest;
  }

  // ---- `substitute` -------------------------------------------------------------------------------------

  /** Somebody of the roster is called by the form. */
  ghost predicate SomeonesForm(roster: set<string>, f: string) { exists n :: n in roster && HasForm(n, f) }

  /** Somebody besides `n` is called by the form. */
  ghost predicate SharedForm(roster: set<string>, f: string, n: string) {
    exists other :: other in roster && HasForm(other, f) && other != n
  }

  /** `person` knows the forms of the roster: each stands for the name that has it, or, when several do, for itself. */
  ghost predicate StandsFor(person: Persons, roster: set<string>) {
    && (forall f :: f in person <==> SomeonesForm(roster, f))
    && (forall f, n | n in roster && HasForm(n, f) :: SomeonesForm(roster, f) ==>
         person[f] == if SharedForm(roster, f, n) then "shared:" + f else n)
  }

  lemma PersonsStandFor(owners: Owners, roster: set<string>)
    requires Owned(owners, roster)
    ensures StandsFor(PersonsOf(owners), roster)
  {
    forall f ensures f in owners <==> SomeonesForm(roster, f) { OwnedForms(owners, roster, f); }
    forall f, n | n in roster && HasForm(n, f)
      ensures f in owners && Person(owners, f) == if SharedForm(roster, f, n) then "shared:" + f else n
    {
      OnePersonOrShared(owners, roster, f, n);
    }
  }

  lemma OwnedForms(owners: Owners, roster: set<string>, f: string)
    requires Owned(owners, roster)
    ensures f in owners <==> SomeonesForm(roster, f)
  {
    if f in owners {
      var n :| n in owners[f];
      assert Owns(owners, f, n);
    }
    if n :| n in roster && HasForm(n, f) { assert Owns(owners, f, n); }
  }

  lemma OnePersonOrShared(owners: Owners, roster: set<string>, f: string, n: string)
    requires Owned(owners, roster) && n in roster && HasForm(n, f)
    ensures f in owners && Person(owners, f) == if SharedForm(roster, f, n) then "shared:" + f else n
  {
    assert Owns(owners, f, n);
    if |owners[f]| == 1 {
      Singleton(owners[f]);
      forall other | other in roster && HasForm(other, f) ensures other == n { assert Owns(owners, f, other); }
    } else {
      assert |owners[f] - {n}| > 0;
      var other :| other in owners[f] - {n};
      assert Owns(owners, f, other);
    }
  }

  /** Every call of the first `k` texts, in order. */
  function CallsUpTo(person: Persons, texts: seq<string>, k: nat): (r: seq<string>)
    requires k <= |texts|
    ensures AllIn(r, person)
  {
    if k == 0 then []
    else
      var ps := Pieces(person, texts[k - 1], 0);
      CallsAreCalled(ps);
      CallsUpTo(person, texts, k - 1) + Calls(ps)
  }

  function AllCalls(person: Persons, texts: seq<string>): (r: seq<string>)
    ensures AllIn(r, person)
  {
    CallsUpTo(person, texts, |texts|)
  }

  function NamingOf(person: Persons, texts: seq<string>): Naming { After(person, AllCalls(person, texts)) }

  /** What is sent for `t` when the numbering is `numbers`. */
  function Sent(person: Persons, numbers: map<string, nat>, t: string): string {
    Render(Pieces(person, t, 0), person, numbers)
  }

  /** The first `k` texts have been substituted. */
  ghost predicate SentUpTo(person: Persons, texts: seq<string>, k: nat, numbers: map<string, nat>, sent: seq<string>) {
    k == |sent| <= |texts| && forall j | 0 <= j < k :: SentAt(person, texts[j], numbers, sent[j])
  }

  ghost predicate SentAt(person: Persons, t: string, numbers: map<string, nat>, out: string) {
    var ps := Pieces(person, t, 0);
    Numbered(ps, person, numbers) && out == Render(ps, person, numbers)
  }

  lemma SentLater(person: Persons, texts: seq<string>, k: nat, numbers: map<string, nat>, sent: seq<string>,
                  later: map<string, nat>, out: string)
    requires SentUpTo(person, texts, k, numbers, sent) && k < |texts| && Grows(numbers, later)
    requires SentAt(person, texts[k], later, out)
    ensures SentUpTo(person, texts, k + 1, later, sent + [out])
  {
    forall j | 0 <= j < k ensures SentAt(person, texts[j], later, sent[j]) {
      assert SentAt(person, texts[j], numbers, sent[j]);
      RenderLater(Pieces(person, texts[j], 0), person, numbers, later);
    }
  }

  method Substitute(texts: seq<string>, names: seq<string>)
    returns (sent: seq<string>, surface: map<string, string>, ghost person: Persons)
    ensures StandsFor(person, Roster(names))
    ensures |sent| == |texts| && surface == NamingOf(person, texts).surface
    ensures forall k | 0 <= k < |texts| :: sent[k] == Sent(person, NamingOf(person, texts).numbers, texts[k])
  {
    var owners := CollectOwners(Roster(names));
    PersonsStandFor(owners, Roster(names));
    var persons := PersonsOf(owners);
    person := persons;
    if persons == map[] {
      NobodyToName(persons, texts, |texts|);
      forall k | 0 <= k < |texts| ensures texts[k] == Sent(persons, map[], texts[k]) { NobodyIn(persons, texts[k], 0); }
      return texts, map[], person;
    }
    var numbering := new Numbering();
    sent := [];
    for k := 0 to |texts|
      invariant numbering.Value() == After(person, CallsUpTo(person, texts, k))
      invariant SentUpTo(person, texts, k, numbering.numbers, sent)
    {
      ghost var earlier := numbering.numbers;
      var out := numbering.SubstituteIn(persons, texts[k], CallsUpTo(person, texts, k));
      SentLater(person, texts, k, earlier, sent, numbering.numbers, out);
      sent := sent + [out];
    }
    surface := numbering.surface;
    forall k | 0 <= k < |texts| ensures sent[k] == Sent(person, numbering.numbers, texts[k]) {
      assert SentAt(person, texts[k], numbering.numbers, sent[k]);
    }
  }

  lemma {:induction false} NobodyToName(person: Persons, texts: seq<string>, k: nat)
    requires person == map[] && k <= |texts|
    ensures CallsUpTo(person, texts, k) == []
  {
    if k > 0 {
      hide Pieces, Calls, Render;
      NobodyToName(person, texts, k - 1);
      NobodyIn(person, texts[k - 1], 0);
    }
  }

  lemma {:induction false} NobodyIn(person: Persons, t: string, i: nat)
    requires person == map[] && i <= |t|
    ensures Calls(Pieces(person, t, i)) == [] && Render(Pieces(person, t, i), person, map[]) == t[i..]
    decreases |t| - i
  {
    if i < |t| { NobodyIn(person, t, i + 1); }
  }

  // ---- Numbers --------------------------------------------------------------------------------------------

  /** Where, from `i` on, a person is first called. */
  function FirstFrom(person: Persons, calls: seq<string>, p: string, i: nat): (k: nat)
    requires AllIn(calls, person) && i <= |calls|
    ensures i <= k <= |calls| && (k < |calls| ==> person[calls[k]] == p)
    ensures forall j | i <= j < k :: person[calls[j]] != p
    decreases |calls| - i
  {
    if i == |calls| || person[calls[i]] == p then i else FirstFrom(person, calls, p, i + 1)
  }

  function FirstCall(person: Persons, calls: seq<string>, p: string): (k: nat)
    requires AllIn(calls, person)
    ensures k <= |calls| && (k < |calls| ==> person[calls[k]] == p)
    ensures forall j | 0 <= j < k :: person[calls[j]] != p
  {
    FirstFrom(person, calls, p, 0)
  }

  lemma {:induction false} FirstSnoc(person: Persons, calls: seq<string>, form: string, p: string, i: nat)
    requires AllIn(calls, person) && form in person && i <= |calls|
    ensures AllIn(calls + [form], person)
    ensures FirstFrom(person, calls + [form], p, i)
      == if FirstFrom(person, calls, p, i) < |calls| then FirstFrom(person, calls, p, i)
         else if person[form] == p then |calls| else |calls| + 1
    decreases |calls| - i
  {
    if i < |calls| && person[calls[i]] != p { FirstSnoc(person, calls, form, p, i + 1); }
  }

  /** The people called, in the order of their first calls. */
  function People(person: Persons, calls: seq<string>): seq<string>
    requires AllIn(calls, person)
  {
    if calls == [] then []
    else
      assert calls == calls[..|calls| - 1] + [calls[|calls| - 1]];
      var front, p := People(person, calls[..|calls| - 1]), person[calls[|calls| - 1]];
      if p in front then front else front + [p]
  }

  ghost predicate Ranked(n: map<string, nat>, people: seq<string>, i: nat)
    requires i < |people|
  {
    people[i] in n && n[people[i]] == i + 1
  }

  /** `people[i]` has the number `i + 1`, and nobody else has one. */
  ghost predicate NumberedInOrder(n: map<string, nat>, people: seq<string>) {
    && |people| == |n|
    && (forall i | 0 <= i < |people| :: Ranked(n, people, i))
    && (forall p :: p in n <==> p in people)
  }

  lemma NewNumber(n: map<string, nat>, people: seq<string>, p: string)
    requires NumberedInOrder(n, people) && p !in n
    ensures NumberedInOrder(n[p := |n| + 1], people + [p])
  {
    var n', people' := n[p := |n| + 1], people + [p];
    assert n'.Keys == n.Keys + {p};
    forall i | 0 <= i < |people'| ensures Ranked(n', people', i) {
      if i < |people| {
        assert Ranked(n, people, i);
        assert people'[i] == people[i] && people[i] in people;
      }
    }
  }

  lemma NumberedStep(naming: Naming, people: seq<string>, person: Persons, form: string)
    requires form in person && NumberedInOrder(naming.numbers, people)
    ensures NumberedInOrder(Step(person, naming, form).numbers,
                            if person[form] in people then people else people + [person[form]])
  {
    hide Mark;
    if person[form] !in naming.numbers { NewNumber(naming.numbers, people, person[form]); }
  }

  /** Numbering the calls in the order they come gives one number each: 1 to the number of people, as they first
      appear. */
  lemma {:induction false} NumberedByFirstAppearance(person: Persons, calls: seq<string>)
    requires AllIn(calls, person)
    ensures NumberedInOrder(After(person, calls).numbers, People(person, calls))
  {
    if calls != [] {
      hide Mark, Step, NumberedInOrder;
      var front, form := calls[..|calls| - 1], calls[|calls| - 1];
      assert calls == front + [form];
      assert forall f | f in front :: f in calls;
      NumberedByFirstAppearance(person, front);
      NumberedStep(After(person, front), People(person, front), person, form);
    }
  }

  ghost predicate CalledAt(person: Persons, calls: seq<string>, people: seq<string>, i: nat)
    requires AllIn(calls, person) && i < |people|
  {
    FirstCall(person, calls, people[i]) < |calls|
  }

  ghost predicate Earlier(person: Persons, calls: seq<string>, people: seq<string>, i: nat, j: nat)
    requires AllIn(calls, person) && i < |people| && j < |people|
  {
    FirstCall(person, calls, people[i]) < FirstCall(person, calls, people[j])
  }

  /** The people are those called, and they stand in the order of their first calls. */
  ghost predicate ByFirstCall(person: Persons, calls: seq<string>, people: seq<string>)
    requires AllIn(calls, person)
  {
    && (forall i | 0 <= i < |people| :: CalledAt(person, calls, people, i))
    && (forall i, j | 0 <= i < j < |people| :: Earlier(person, calls, people, i, j))
    && (forall k | 0 <= k < |calls| :: person[calls[k]] in people)
  }

  lemma PeopleStep(person: Persons, calls: seq<string>, people: seq<string>, form: string)
    requires AllIn(calls, person) && form in person && ByFirstCall(person, calls, people)
    ensures AllIn(calls + [form], person)
    ensures ByFirstCall(person, calls + [form], if person[form] in people then people else people + [person[form]])
  {
    var p, calls' := person[form], calls + [form];
    var people' := if p in people then people else people + [p];
    if p !in people { NeverBefore(person, calls, people, p); }
    forall i | 0 <= i < |people'| ensures CalledAt(person, calls', people', i) {
      FirstSnoc(person, calls, form, people'[i], 0);
      if i < |people| { assert CalledAt(person, calls, people, i); }
    }
    forall i, j | 0 <= i < j < |people'| ensures Earlier(person, calls', people', i, j) {
      FirstSnoc(person, calls, form, people'[i], 0);
      FirstSnoc(person, calls, form, people'[j], 0);
      assert CalledAt(person, calls, people, i);
      if j < |people| { assert Earlier(person, calls, people, i, j) && CalledAt(person, calls, people, j); }
    }
  }

  lemma {:induction false} PeopleByFirstCall(person: Persons, calls: seq<string>)
    requires AllIn(calls, person)
    ensures ByFirstCall(person, calls, People(person, calls))
  {
    if calls != [] {
      var front, form := calls[..|calls| - 1], calls[|calls| - 1];
      assert calls == front + [form];
      assert forall f | f in front :: f in calls;
      PeopleByFirstCall(person, front);
      PeopleStep(person, front, People(person, front), form);
    }
  }

  lemma NeverBefore(person: Persons, calls: seq<string>, people: seq<string>, p: string)
    requires AllIn(calls, person) && p !in people
    requires forall k | 0 <= k < |calls| :: person[calls[k]] in people
    ensures FirstCall(person, calls, p) == |calls|
  {
  }

  lemma MarkInjective(a: nat, b: nat)
    requires Mark(a) == Mark(b)
    ensures a == b
  {
    assert Mark(a)[3..|Mark(a)| - 1] == Decimal(a) && Mark(b)[3..|Mark(b)| - 1] == Decimal(b);
    DecimalInjective(a, b);
  }

  ghost predicate Stands(surface: map<string, string>, i: nat, form: string) {
    Mark(i + 1) in surface && surface[Mark(i + 1)] == form
  }

  /** `m` is one of the first `k` placeholders. */
  ghost predicate IsMark(m: string, k: nat) { exists i: nat :: i < k && Numbers(m, i) }

  ghost predicate Numbers(m: string, i: nat) { m == Mark(i + 1) }

  /** Each person's placeholder stands for the form they were first called by, and nothing else stands for anything. */
  ghost predicate Surfaced(person: Persons, calls: seq<string>, people: seq<string>, surface: map<string, string>)
    requires AllIn(calls, person) && forall i | 0 <= i < |people| :: CalledAt(person, calls, people, i)
  {
    && (forall i | 0 <= i < |people| :: StandsForFirst(person, calls, people, surface, i))
    && (forall m | m in surface :: IsMark(m, |people|))
  }

  ghost predicate StandsForFirst(person: Persons, calls: seq<string>, people: seq<string>,
                                 surface: map<string, string>, i: nat)
    requires AllIn(calls, person) && i < |people| && CalledAt(person, calls, people, i)
  {
    Stands(surface, i, calls[FirstCall(person, calls, people[i])])
  }

  /** A person already called changes nothing; a new one gets the next placeholder. */
  lemma SurfaceAfterStep(naming: Naming, calls: seq<string>, people: seq<string>, person: Persons, form: string)
    requires form in person && AllIn(calls, person) && ByFirstCall(person, calls, people)
    requires NumberedInOrder(naming.numbers, people) && Surfaced(person, calls, people, naming.surface)
    ensures var surface := Step(person, naming, form).surface;
      if person[form] in people then surface == naming.surface
      else Mark(|people| + 1) !in naming.surface && surface == naming.surface[Mark(|people| + 1) := form]
  {
    hide After, FirstFrom, Mark;
    if person[form] in people {
      var i :| 0 <= i < |people| && people[i] == person[form];
      assert Ranked(naming.numbers, people, i);
      assert StandsForFirst(person, calls, people, naming.surface, i);
    } else if Mark(|people| + 1) in naming.surface {
      assert IsMark(Mark(|people| + 1), |people|);
      var i: nat :| i < |people| && Numbers(Mark(|people| + 1), i);
      MarkInjective(i + 1, |people| + 1);
    }
  }

  lemma SurfaceStep(naming: Naming, calls: seq<string>, people: seq<string>, person: Persons, form: string)
    requires form in person && AllIn(calls, person) && ByFirstCall(person, calls, people)
    requires NumberedInOrder(naming.numbers, people) && Surfaced(person, calls, people, naming.surface)
    ensures AllIn(calls + [form], person)
    ensures var people' := if person[form] in people then people else people + [person[form]];
      && ByFirstCall(person, calls + [form], people')
      && Surfaced(person, calls + [form], people', Step(person, naming, form).surface)
  {
    hide Step, Mark, FirstFrom, AllIn;
    PeopleStep(person, calls, people, form);
    SurfaceAfterStep(naming, calls, people, person, form);
    var p, calls', surface := person[form], calls + [form], Step(person, naming, form).surface;
    var people' := if p in people then people else people + [p];
    if p !in people { NeverBefore(person, calls, people, p); }
    forall i | 0 <= i < |people'| ensures StandsForFirst(person, calls', people', surface, i) {
      FirstSnoc(person, calls, form, people'[i], 0);
      if i < |people| {
        assert CalledAt(person, calls, people, i);
        assert StandsForFirst(person, calls, people, naming.surface, i);
      }
    }
    MoreMarks(naming.surface, surface, |people|, |people'|, form);
  }

  lemma MoreMarks(surface: map<string, string>, surface': map<string, string>, k: nat, k': nat, form: string)
    requires forall m | m in surface :: IsMark(m, k)
    requires surface' == (if k' == k then surface else surface[Mark(k + 1) := form]) && (k' == k || k' == k + 1)
    ensures forall m | m in surface' :: IsMark(m, k')
  {
    forall m | m in surface' ensures IsMark(m, k') {
      if m in surface {
        assert IsMark(m, k);
        var i: nat :| i < k && Numbers(m, i);
        assert i < k' && Numbers(m, i);
      } else {
        assert Numbers(m, k);
      }
    }
  }

  /** Each placeholder stands for the form its person was first called by. */
  lemma {:induction false} SurfaceIsFirstForm(person: Persons, calls: seq<string>)
    requires AllIn(calls, person)
    ensures ByFirstCall(person, calls, People(person, calls))
    ensures Surfaced(person, calls, People(person, calls), After(person, calls).surface)
  {
    PeopleByFirstCall(person, calls);
    if calls != [] {
      var front, form := calls[..|calls| - 1], calls[|calls| - 1];
      assert calls == front + [form];
      assert forall f | f in front :: f in calls;
      SurfaceIsFirstForm(person, front);
      NumberedByFirstAppearance(person, front);
      SurfaceStep(After(person, front), front, People(person, front), person, form);
    }
  }

  // ---- Nothing of the roster is sent ----------------------------------------------------------------------

  function Founds(person: Persons, t: string): (hits: seq<nat>)
    ensures |hits| == |t| && forall i | 0 <= i < |t| :: hits[i] == FoundAt(person, t, i)
  {
    seq(|t|, i requires 0 <= i < |t| => FoundAt(person, t, i))
  }

  function Placeholders(person: Persons, numbers: map<string, nat>, t: string): (put: seq<string>)
    ensures |put| == |t|
    ensures forall i | 0 <= i < |t| :: put[i] == Mark(NumberOf(person, numbers, t[i..i + FoundAt(person, t, i)]))
  {
    seq(|t|, i requires 0 <= i < |t| => Mark(NumberOf(person, numbers, t[i..i + FoundAt(person, t, i)])))
  }

  ghost predicate PutAt(person: Persons, numbers: map<string, nat>, t: string, i: nat, hit: nat, put: string)
    requires i < |t|
  {
    hit == FoundAt(person, t, i) && put == Mark(NumberOf(person, numbers, t[i..i + hit]))
  }

  /** The pieces, put together, are what scanning and replacing makes. */
  lemma {:induction false} RenderIsSub(person: Persons, numbers: map<string, nat>, t: string, i: nat,
                                       hits: seq<nat>, put: seq<string>)
    requires i <= |t| && Fits(t, hits, put)
    requires forall j | 0 <= j < |t| :: PutAt(person, numbers, t, j, hits[j], put[j])
    ensures Render(Pieces(person, t, i), person, numbers) == Sub(t, hits, put, i)
    decreases |t| - i
  {
    hide Render, Pieces, FoundAt, Sub, NumberOf, Mark;
    if i < |t| {
      assert PutAt(person, numbers, t, i, hits[i], put[i]);
      var next := if hits[i] == 0 then i + 1 else i + hits[i];
      RenderIsSub(person, numbers, t, next, hits, put);
      RenderStep(person, numbers, t, i);
      SubStep(t, hits, put, i);
    } else {
      RenderEnds(person, numbers, t, hits, put);
    }
  }

  lemma RenderEnds(person: Persons, numbers: map<string, nat>, t: string, hits: seq<nat>, put: seq<string>)
    requires Fits(t, hits, put)
    ensures Render(Pieces(person, t, |t|), person, numbers) == [] == Sub(t, hits, put, |t|)
  {
  }

  lemma RenderStep(person: Persons, numbers: map<string, nat>, t: string, i: nat)
    requires i < |t|
    ensures var k := FoundAt(person, t, i);
      Render(Pieces(person, t, i), person, numbers) ==
        if k == 0 then [t[i]] + Render(Pieces(person, t, i + 1), person, numbers)
        else Mark(NumberOf(person, numbers, t[i..i + k])) + Render(Pieces(person, t, i + k), person, numbers)
  {
    var k := FoundAt(person, t, i);
    if k == 0 {
      RenderCons(Plain(t[i]), Pieces(person, t, i + 1), person, numbers);
    } else {
      RenderCons(Called(t[i..i + k]), Pieces(person, t, i + k), person, numbers);
    }
  }

  lemma RenderCons(p: Piece, rest: seq<Piece>, person: Persons, numbers: map<string, nat>)
    ensures Render([p] + rest, person, numbers) == Shown(p, person, numbers) + Render(rest, person, numbers)
  {
    assert ([p] + rest)[1..] == rest;
  }

  /** Neither bracket stands in the form, and it is no part of the word and digits a placeholder holds. */
  ghost predicate KeepsClear(form: string) {
    '[' !in form && ']' !in form && forall n: nat :: !Occurs(form, PERSON + Decimal(n))
  }

  /** What scanning for the forms leaves. */
  ghost predicate Scanned(person: Persons, t: string, hits: seq<nat>, put: seq<string>, out: string, o: seq<Origin>) {
    && Fits(t, hits, put) && Traced(t, hits, put, out, o)
    && (forall i | 0 <= i < |t| :: hits[i] == FoundAt(person, t, i) && IsPlaceholder(put[i]))
  }

  ghost predicate IsPlaceholder(m: string) { exists n: nat :: m == Mark(n) }

  lemma FoundsFit(person: Persons, numbers: map<string, nat>, t: string)
    ensures var hits, put := Founds(person, t), Placeholders(person, numbers, t);
      && Fits(t, hits, put)
      && forall j | 0 <= j < |t| :: PutAt(person, numbers, t, j, hits[j], put[j]) && IsPlaceholder(put[j])
  {
    hide LongestAt, NumberOf;
  }

  /** A form without brackets that stands in what is sent is part of what some placeholder holds. */
  lemma FormIsOfAMark(person: Persons, numbers: map<string, nat>, t: string, form: string) returns (f: string)
    requires form in person && '[' !in form && ']' !in form && Occurs(form, Sent(person, numbers, t))
    ensures f in person && Occurs(form, PERSON + Decimal(NumberOf(person, numbers, f)))
  {
    hide Sub, Trace, Render, Pieces, FoundAt, NumberOf, Mark;
    var hits, put := Founds(person, t), Placeholders(person, numbers, t);
    FoundsFit(person, numbers, t);
    RenderIsSub(person, numbers, t, 0, hits, put);
    var out, o := Sent(person, numbers, t), Trace(t, hits, put, 0);
    TraceIsLocal(t, hits, put, 0);
    var p: nat :| OccursAt(form, out, p);
    assert out[p..p + |form|] == form;
    assert Tells(t, hits, put, o[p], out[p]);
    FormFromKept(person, t, hits, put, out, o, p, form);
    var s := o[p].start;
    assert PutAt(person, numbers, t, s, hits[s], put[s]);
    f := t[s..s + hits[s]];
    IsAForm(person, t, s);
    FormFromPut(t, hits, put, out, o, p, form, NumberOf(person, numbers, f));
  }

  lemma IsAForm(person: Persons, t: string, i: nat)
    requires i <= |t| && FoundAt(person, t, i) > 0
    ensures t[i..i + FoundAt(person, t, i)] in person
  {
    assert FormAt(person, t, i, FoundAt(person, t, i));
  }

  /** No form is left in what is sent, when every form of the roster keeps clear of the placeholders. */
  lemma NoFormIsSent(person: Persons, numbers: map<string, nat>, t: string, form: string)
    requires form in person && KeepsClear(form)
    ensures !Occurs(form, Sent(person, numbers, t))
  {
    if Occurs(form, Sent(person, numbers, t)) {
      var f := FormIsOfAMark(person, numbers, t, form);
      assert false;
    }
  }

  /** A form of Hangul syllables and spaces keeps clear, unless it is the very word of the placeholders. */
  lemma HangulKeepsClear(form: string)
    requires |form| >= 2 && form != PERSON && forall c | c in form :: IsHangul(c) || c == ' '
    ensures KeepsClear(form)
  {
    forall n: nat ensures !Occurs(form, PERSON + Decimal(n)) {
      if p: nat :| OccursAt(form, PERSON + Decimal(n), p) { OnlyTheWord(form, n, p); }
    }
  }

  /** The digits of a placeholder are no Hangul, so that only its word is. */
  lemma OnlyTheWord(form: string, n: nat, p: nat)
    requires |form| >= 2 && (forall c | c in form :: IsHangul(c) || c == ' ') && OccursAt(form, PERSON + Decimal(n), p)
    ensures form == PERSON
  {
    var inner, last := PERSON + Decimal(n), p + |form| - 1;
    assert last >= 2 ==> inner[last] == Decimal(n)[last - 2] && IsAsciiDigit(inner[last]);
    assert inner[last] == inner[p..p + |form|][|form| - 1] == form[|form| - 1];
    assert form[|form| - 1] in form;
    assert inner[0..2] == PERSON;
  }

  /** The person's own name, as it is spelled with single spaces, or a form of it. */
  ghost predicate CallsHim(ws: seq<string>, f: string)
    requires ws != []
  {
    |f| >= 2 && (f == Spelled(ws) || HangulForm(ws, f))
  }

  /** No name of Hangul words on the roster, and no form of one, is left in anything that is sent, unless it is the very
      word of the placeholders. */
  lemma NoNameIsSent(person: Persons, names: seq<string>, numbers: map<string, nat>, t: string, name: string,
                     ws: seq<string>, f: string)
    requires StandsFor(person, Roster(names)) && name in names && ws != [] && Spread(name, ws)
    requires (forall w, c | w in ws && c in w :: IsHangul(c)) && CallsHim(ws, f) && f != PERSON
    ensures !Occurs(f, Sent(person, numbers, t))
  {
    hide Occurs, IsHangul, IsSpace, HangulForm, Spread, Sent;
    WordsExactly(name, ws);
    SpreadIsWords(name, ws);
    HasFormExactly(ws, f);
    RosterExactly(names, Spelled(ws));
    assert SomeonesForm(Roster(names), f);
    FormIsOfItsCharacters(ws, f);
    HangulKeepsClear(f);
    NoFormIsSent(person, numbers, t, f);
  }

  lemma {:induction false} SpreadIsWords(t: string, ws: seq<string>)
    requires Spread(t, ws)
    ensures AreWords(ws)
    decreases |ws|
  {
    hide IsWord;
    if ws != [] {
      var lead, rest :| SpreadAt(t, ws, lead, rest) && Spread(rest, ws[1..]);
      SpreadIsWords(rest, ws[1..]);
      assert ws == [ws[0]] + ws[1..];
    }
  }

  lemma {:induction false} SpelledOf(ws: seq<string>)
    requires ws != [] && forall w, c | w in ws && c in w :: IsHangul(c)
    ensures forall c | c in Spelled(ws) :: IsHangul(c) || c == ' '
    ensures forall c | c in Concat(ws) :: IsHangul(c)
  {
    hide IsHangul;
    assert ws[0] in ws;
    if |ws| > 1 {
      assert forall w | w in ws[1..] :: w in ws;
      SpelledOf(ws[1..]);
    } else {
      assert Concat(ws) == ws[0] + Concat(ws[1..]) == ws[0];
    }
  }

  lemma FormIsOfItsCharacters(ws: seq<string>, f: string)
    requires ws != [] && (forall w, c | w in ws && c in w :: IsHangul(c)) && CallsHim(ws, f)
    ensures forall c | c in f :: IsHangul(c) || c == ' '
  {
    hide IsHangul, Concat, Spelled;
    SpelledOf(ws);
    if |ws| == 2 { assert ws[0] in ws && ws[1] in ws; }
  }

  /** Neither a full name of three syllables nor the given name in it is left in anything that is sent. */
  lemma NoFullNameIsSent(person: Persons, names: seq<string>, numbers: map<string, nat>, t: string, name: string)
    requires StandsFor(person, Roster(names)) && name in names && |name| == 3 && forall c | c in name :: IsHangul(c)
    ensures !Occurs(name, Sent(person, numbers, t))
    ensures name[1..] != PERSON ==> !Occurs(name[1..], Sent(person, numbers, t))
  {
    hide Occurs, IsHangul, Sent;
    var ws := [name];
    forall c | c in name ensures !IsSpace(c) { LayoutFacts(c); }
    assert Concat(ws) == name + Concat(ws[1..]) == name;
    SpelledIsSpread(ws);
    NoNameIsSent(person, names, numbers, t, name, ws, name);
    if name[1..] != PERSON { NoNameIsSent(person, names, numbers, t, name, ws, name[1..]); }
  }

  lemma FormFromKept(person: Persons, t: string, hits: seq<nat>, put: seq<string>, out: string, o: seq<Origin>, p: nat,
                     form: string)
    requires Scanned(person, t, hits, put, out, o) && form in person && '[' !in form
    requires p + |form| <= |out| && forall j | 0 <= j < |form| :: out[p + j] == form[j]
    ensures !o[p].Kept?
  {
    hide FoundAt;
    if o[p].Kept? {
      var n, q := |form|, o[p].at;
      var k := FirstPut(o, p, n);
      if k < n {
        assert out[p + k] == form[k] && form[k] in form;
        OpensBracket(person, t, hits, put, out, o, p + k);
      }
      KeptForm(t, hits, put, out, o, p, form);
      FormFound(person, t, q, form);
    }
  }

  lemma FormFound(person: Persons, t: string, q: nat, form: string)
    requires form in person && q + |form| <= |t| && t[q..q + |form|] == form
    ensures FoundAt(person, t, q) > 0
  {
    assert FormAt(person, t, q, |form|);
  }

  /** The first character of a placeholder is its bracket. */
  lemma OpensBracket(person: Persons, t: string, hits: seq<nat>, put: seq<string>, out: string, o: seq<Origin>, p: nat)
    requires Scanned(person, t, hits, put, out, o) && 0 < p < |o| && o[p].Put? && o[p - 1].Kept?
    ensures out[p] == '['
  {
    assert NextAt(t, hits, put, o, p - 1);
    assert Tells(t, hits, put, o[p - 1], out[p - 1]);
    assert Tells(t, hits, put, o[p], out[p]);
    assert IsPlaceholder(put[o[p].start]);
  }

  lemma KeptForm(t: string, hits: seq<nat>, put: seq<string>, out: string, o: seq<Origin>, p: nat, form: string)
    requires Fits(t, hits, put) && Traced(t, hits, put, out, o) && form != []
    requires p + |form| <= |out| && forall j | 0 <= j < |form| :: out[p + j] == form[j]
    requires forall k | p <= k < p + |form| :: o[k].Kept?
    ensures o[p].at + |form| <= |t| && t[o[p].at..o[p].at + |form|] == form
  {
    KeptRun(t, hits, put, out, o, p, |form| - 1);
    forall j | 0 <= j < |form| ensures t[o[p].at + j] == form[j] { KeptRun(t, hits, put, out, o, p, j); }
  }

  /** A form that begins inside a placeholder ends inside it, since it does not hold its closing bracket. */
  lemma OccursThere(form: string, t: string, p: nat)
    requires p + |form| <= |t| && forall j | 0 <= j < |form| :: t[p + j] == form[j]
    ensures Occurs(form, t)
  {
    assert t[p..p + |form|] == form;
    assert OccursAt(form, t, p);
  }

  lemma FormFromPut(t: string, hits: seq<nat>, put: seq<string>, out: string, o: seq<Origin>, p: nat,
                    form: string, n: nat)
    requires Fits(t, hits, put) && Traced(t, hits, put, out, o) && form != [] && '[' !in form && ']' !in form
    requires p + |form| <= |out| && forall j | 0 <= j < |form| :: out[p + j] == form[j]
    requires o[p].Put? && o[p].start < |t| && put[o[p].start] == Mark(n)
    ensures Occurs(form, PERSON + Decimal(n))
  {
    assert Tells(t, hits, put, o[p], out[p]);
    var mark, x, inner := Mark(n), o[p].offset, PERSON + Decimal(n);
    assert mark == "[" + inner + "]";
    assert out[p + 0] == form[0] && form[0] in form;
    EndsBeforeBracket(t, hits, put, out, o, p, form, |mark| - 1 - x);
    forall j | 0 <= j < |form| ensures inner[x - 1 + j] == form[j] { PutRun(t, hits, put, out, o, p, j); }
    OccursThere(form, inner, x - 1);
  }

  lemma EndsBeforeBracket(t: string, hits: seq<nat>, put: seq<string>, out: string, o: seq<Origin>, p: nat,
                          form: string, j: nat)
    requires Fits(t, hits, put) && Traced(t, hits, put, out, o) && ']' !in form
    requires p + |form| <= |out| && forall j | 0 <= j < |form| :: out[p + j] == form[j]
    requires p < |o| && o[p].Put? && o[p].start < |t|
    requires var mark := put[o[p].start]; o[p].offset + j < |mark| && mark[o[p].offset + j] == ']'
    ensures |form| <= j
  {
    if j < |form| {
      assert out[p + j] == form[j] && form[j] in form;
      PutRun(t, hits, put, out, o, p, j);
    }
  }

  // ---- `restore` ------------------------------------------------------------------------------------------

  /** Where the run of decimal digits from `i` on ends. */
  function DigitsEnd(t: string, i: nat, decimal: set<char>): (k: nat)
    requires i <= |t|
    ensures i <= k <= |t| && (k < |t| ==> t[k] !in decimal) && forall j | i <= j < k :: t[j] in decimal
    decreases |t| - i
  {
    if i < |t| && t[i] in decimal then DigitsEnd(t, i + 1, decimal) else i
  }

  /** `\[사람\d+\]` at `p`: its length, 0 when it does not match there. */
  function MarkAt(t: string, p: nat, decimal: set<char>): (n: nat)
    requires p <= |t|
    ensures p + n <= |t|
  {
    if p + 3 <= |t| && t[p..p + 3] == "[" + PERSON then
      var k := DigitsEnd(t, p + 3, decimal);
      if k > p + 3 && k < |t| && t[k] == ']' then k + 1 - p else 0
    else 0
  }

  function Marks(t: string, decimal: set<char>): (hits: seq<nat>)
    ensures |hits| == |t| && forall i | 0 <= i < |t| :: hits[i] == MarkAt(t, i, decimal)
  {
    seq(|t|, i requires 0 <= i < |t| => MarkAt(t, i, decimal))
  }

  /** What placeholders stand for: never the empty form. */
  type Surface = m: map<string, string> | forall k | k in m :: m[k] != [] witness map[]

  function Backs(t: string, surface: Surface, decimal: set<char>): (put: seq<string>)
    ensures |put| == |t|
    ensures forall i | 0 <= i < |t| :: put[i] == BackAt(t, surface, i, MarkAt(t, i, decimal))
  {
    seq(|t|, i requires 0 <= i < |t| => BackAt(t, surface, i, MarkAt(t, i, decimal)))
  }

  /** `surface.get(m, m)` for the match of length `n` at `i`. */
  function BackAt(t: string, surface: Surface, i: nat, n: nat): (form: string)
    requires i < |t| && i + n <= |t|
    ensures form != []
  {
    if n == 0 then [t[i]] else if t[i..i + n] in surface then surface[t[i..i + n]] else t[i..i + n]
  }

  /** `restore`. */
  function Restored(t: string, surface: Surface, decimal: set<char>): string {
    Sub(t, Marks(t, decimal), Backs(t, surface, decimal), 0)
  }

  /** The brackets are no digits, and the ASCII digits are. */
  predicate DigitsOnly(decimal: set<char>) {
    '[' !in decimal && ']' !in decimal && forall c | IsAsciiDigit(c) :: c in decimal
  }

  /** A placeholder is matched whole. */
  lemma MarkIsMatched(t: string, p: nat, n: nat, decimal: set<char>)
    requires DigitsOnly(decimal) && p + |Mark(n)| <= |t| && t[p..p + |Mark(n)|] == Mark(n)
    ensures MarkAt(t, p, decimal) == |Mark(n)|
  {
    var m, d := Mark(n), Decimal(n);
    var k := p + 3 + |d|;
    MarkStands(t, p, n);
    DigitsReach(t, p + 3, k, decimal);
    assert t[p..p + 3] == m[..3] == "[" + PERSON;
  }

  lemma MarkStands(t: string, p: nat, n: nat)
    requires p + |Mark(n)| <= |t| && t[p..p + |Mark(n)|] == Mark(n)
    ensures |Mark(n)| == 4 + |Decimal(n)| && t[p + 3 + |Decimal(n)|] == ']'
    ensures forall j | 0 <= j < 3 :: t[p + j] == Mark(n)[j]
    ensures forall j | p + 3 <= j < p + 3 + |Decimal(n)| :: IsAsciiDigit(t[j])
  {
    hide Decimal;
    var m, d := Mark(n), Decimal(n);
    var piece := t[p..p + |m|];
    assert forall j | 0 <= j < |m| :: piece[j] == t[p + j];
    assert m[3 + |d|] == ']';
    assert piece[3 + |d|] == t[p + 3 + |d|];
    forall j | p + 3 <= j < p + 3 + |d| ensures IsAsciiDigit(t[j]) {
      assert piece[j - p] == m[j - p] == d[j - p - 3];
    }
  }

  lemma {:induction false} DigitsReach(t: string, i: nat, k: nat, decimal: set<char>)
    requires i <= k < |t| && (forall j | i <= j < k :: t[j] in decimal) && t[k] !in decimal
    ensures DigitsEnd(t, i, decimal) == k
    decreases k - i
  {
    if i < k { DigitsReach(t, i + 1, k, decimal); }
  }

  /** A match opens with its one bracket. */
  lemma MatchOpens(t: string, p: nat, decimal: set<char>)
    requires p <= |t| && DigitsOnly(decimal) && MarkAt(t, p, decimal) > 0
    ensures t[p] == '[' && forall j | p < j < p + MarkAt(t, p, decimal) :: t[j] != '['
  {
    var head := t[p..p + 3];
    assert head[0] == t[p] && head[1] == t[p + 1] && head[2] == t[p + 2];
  }

  /** Every match the scan from `i` on meets is what its placeholder stands for. */
  ghost predicate ComesBack(t: string, hits: seq<nat>, put: seq<string>, surface: Surface, i: nat)
    requires i <= |t| && Fits(t, hits, put)
    decreases |t| - i
  {
    i == |t| ||
    if hits[i] == 0 then ComesBack(t, hits, put, surface, i + 1)
    else
      put[i] in surface && surface[put[i]] == t[i..i + hits[i]] && ComesBack(t, hits, put, surface, i + hits[i])
  }

  /** Every replacement is a placeholder. */
  ghost predicate AllPlaceholders(hits: seq<nat>, put: seq<string>) {
    |hits| == |put| && forall i | 0 <= i < |put| && hits[i] > 0 :: IsPlaceholder(put[i])
  }

  /** The text was taken apart and sent as `out`, in which the matches of a placeholder are `marks`, each going back
      to what `backs` holds. */
  ghost predicate Returning(t: string, hits: seq<nat>, put: seq<string>, surface: Surface, decimal: set<char>,
                            out: string, marks: seq<nat>, backs: seq<string>) {
    && Fits(t, hits, put) && AllPlaceholders(hits, put) && Fits(out, marks, backs) && DigitsOnly(decimal)
    && (forall j | 0 <= j < |out| :: marks[j] == MarkAt(out, j, decimal))
    && (forall j | 0 <= j < |out| :: backs[j] == BackAt(out, surface, j, marks[j]))
    && (forall m | m in surface :: !Occurs(m, t))
  }

  /** `out` from `p` on is what the text from `i` on was sent as. */
  ghost predicate Aligned(t: string, hits: seq<nat>, put: seq<string>, surface: Surface, i: nat, out: string, p: nat)
    requires Fits(t, hits, put)
  {
    i <= |t| && p <= |out| && out[p..] == Sub(t, hits, put, i) && ComesBack(t, hits, put, surface, i)
  }

  lemma PlainStep(t: string, hits: seq<nat>, put: seq<string>, surface: Surface, i: nat, out: string, p: nat)
    requires Fits(t, hits, put) && Aligned(t, hits, put, surface, i, out, p) && i < |t| && hits[i] == 0
    ensures p < |out| && out[p] == t[i] && Aligned(t, hits, put, surface, i + 1, out, p + 1)
  {
    assert out[p] == out[p..][0] && out[p + 1..] == out[p..][1..];
  }

  lemma CalledStep(t: string, hits: seq<nat>, put: seq<string>, surface: Surface, i: nat, out: string, p: nat)
    requires Fits(t, hits, put) && Aligned(t, hits, put, surface, i, out, p) && i < |t| && hits[i] > 0
    ensures p + |put[i]| <= |out| && out[p..p + |put[i]|] == put[i] && out[p] == put[i][0]
    ensures Aligned(t, hits, put, surface, i + hits[i], out, p + |put[i]|)
  {
    var rest := Sub(t, hits, put, i + hits[i]);
    assert out[p..] == put[i] + rest;
    assert out[p..][..|put[i]|] == put[i] && out[p..][|put[i]|..] == rest;
    assert out[p + |put[i]|..] == out[p..][|put[i]|..] && out[p..p + |put[i]|] == out[p..][..|put[i]|];
  }

  lemma NoBracketNoMark(t: string, hits: seq<nat>, put: seq<string>, surface: Surface, i: nat, out: string, p: nat)
    requires Fits(t, hits, put) && AllPlaceholders(hits, put) && Aligned(t, hits, put, surface, i, out, p)
    requires p < |out| && out[p] != '['
    ensures i < |t| && hits[i] == 0
  {
    assert |out[p..]| > 0;
    if hits[i] > 0 {
      OpensWithBracket(hits, put, i);
      CalledStep(t, hits, put, surface, i, out, p);
    }
  }

  lemma OpensWithBracket(hits: seq<nat>, put: seq<string>, i: nat)
    requires AllPlaceholders(hits, put) && i < |hits| && hits[i] > 0
    ensures put[i] != [] && put[i][0] == '['
  {
    assert IsPlaceholder(put[i]);
  }

  /** Up to the next bracket what is sent is the text itself. */
  lemma {:induction false} PlainAhead(t: string, hits: seq<nat>, put: seq<string>, surface: Surface,
                                      i: nat, out: string, p: nat, q: nat)
    requires Fits(t, hits, put) && AllPlaceholders(hits, put) && Aligned(t, hits, put, surface, i, out, p)
    requires p <= q <= |out| && forall j | p <= j < q :: out[j] != '['
    ensures i + (q - p) <= |t| && out[p..q] == t[i..i + (q - p)]
    ensures Aligned(t, hits, put, surface, i + (q - p), out, q)
    decreases q - p
  {
    if p < q {
      NoBracketNoMark(t, hits, put, surface, i, out, p);
      PlainStep(t, hits, put, surface, i, out, p);
      PlainAhead(t, hits, put, surface, i + 1, out, p + 1, q);
      assert out[p..q] == [out[p]] + out[p + 1..q];
      assert t[i..i + (q - p)] == [t[i]] + t[i + 1..i + (q - p)];
    }
  }

  /** A placeholder that was put in is matched whole and goes back to its form. */
  lemma CalledReturns(t: string, hits: seq<nat>, put: seq<string>, surface: Surface, decimal: set<char>,
                      i: nat, out: string, marks: seq<nat>, backs: seq<string>, p: nat)
    requires Returning(t, hits, put, surface, decimal, out, marks, backs)
    requires Aligned(t, hits, put, surface, i, out, p) && i < |t| && hits[i] > 0
    ensures p < |out| && marks[p] == |put[i]| && backs[p] == t[i..i + hits[i]]
    ensures Aligned(t, hits, put, surface, i + hits[i], out, p + marks[p])
  {
    CalledStep(t, hits, put, surface, i, out, p);
    assert IsPlaceholder(put[i]);
    var n: nat :| put[i] == Mark(n);
    MarkIsMatched(out, p, n, decimal);
  }

  /** A placeholder that was written in the text stands for nothing and stays. */
  lemma LiteralReturns(t: string, hits: seq<nat>, put: seq<string>, surface: Surface, decimal: set<char>,
                       i: nat, out: string, marks: seq<nat>, backs: seq<string>, p: nat)
    requires Returning(t, hits, put, surface, decimal, out, marks, backs)
    requires Aligned(t, hits, put, surface, i, out, p) && i < |t| && hits[i] == 0 && p < |out| && marks[p] > 0
    ensures i + marks[p] <= |t| && backs[p] == t[i..i + marks[p]]
    ensures Aligned(t, hits, put, surface, i + marks[p], out, p + marks[p])
  {
    hide Sub, MarkAt, ComesBack, DigitsOnly;
    var n := marks[p];
    MatchOpens(out, p, decimal);
    PlainStep(t, hits, put, surface, i, out, p);
    PlainAhead(t, hits, put, surface, i + 1, out, p + 1, p + n);
    assert out[p..p + n] == [out[p]] + out[p + 1..p + n] && t[i..i + n] == [t[i]] + t[i + 1..i + n];
    assert OccursAt(t[i..i + n], t, i);
  }

  /** One match, or one character, of the restoring scan. */
  lemma ReturnsNext(t: string, hits: seq<nat>, put: seq<string>, surface: Surface, decimal: set<char>,
                    i: nat, out: string, marks: seq<nat>, backs: seq<string>, p: nat)
    returns (j: nat, q: nat, back: string)
    requires Returning(t, hits, put, surface, decimal, out, marks, backs)
    requires Aligned(t, hits, put, surface, i, out, p) && i < |t|
    ensures i < j && Aligned(t, hits, put, surface, j, out, q) && back == t[i..j]
    ensures p < |out| && q == p + (if marks[p] == 0 then 1 else marks[p])
    ensures back == if marks[p] == 0 then [out[p]] else backs[p]
  {
    hide Sub, MarkAt, ComesBack, BackAt, DigitsOnly;
    if hits[i] > 0 {
      CalledReturns(t, hits, put, surface, decimal, i, out, marks, backs, p);
      j, q, back := i + hits[i], p + marks[p], backs[p];
    } else {
      PlainStep(t, hits, put, surface, i, out, p);
      if marks[p] == 0 {
        j, q, back := i + 1, p + 1, [out[p]];
      } else {
        LiteralReturns(t, hits, put, surface, decimal, i, out, marks, backs, p);
        j, q, back := i + marks[p], p + marks[p], backs[p];
      }
    }
  }

  /** Restoring from where the text at `i` was sent gives the text from `i` on. */
  lemma {:induction false} RestoresFrom(t: string, hits: seq<nat>, put: seq<string>, surface: Surface,
                                        decimal: set<char>, i: nat, out: string, marks: seq<nat>, backs: seq<string>,
                                        p: nat)
    requires Returning(t, hits, put, surface, decimal, out, marks, backs)
    requires Aligned(t, hits, put, surface, i, out, p)
    ensures Sub(out, marks, backs, p) == t[i..]
    decreases |t| - i
  {
    if i == |t| {
      NothingLeft(t, hits, put, surface, out, marks, backs, p);
    } else {
      var j, q, back := ReturnsNext(t, hits, put, surface, decimal, i, out, marks, backs, p);
      RestoresFrom(t, hits, put, surface, decimal, j, out, marks, backs, q);
      ReturnsMore(t, i, j, out, marks, backs, p, q, back);
    }
  }

  lemma NothingLeft(t: string, hits: seq<nat>, put: seq<string>, surface: Surface,
                    out: string, marks: seq<nat>, backs: seq<string>, p: nat)
    requires Fits(t, hits, put) && Fits(out, marks, backs) && Aligned(t, hits, put, surface, |t|, out, p)
    ensures Sub(out, marks, backs, p) == []
  {
    assert |out[p..]| == 0;
  }

  lemma ReturnsMore(t: string, i: nat, j: nat, out: string, marks: seq<nat>, backs: seq<string>, p: nat, q: nat,
                    back: string)
    requires Fits(out, marks, backs) && i <= j <= |t| && p < |out| && q == p + (if marks[p] == 0 then 1 else marks[p])
    requires back == (if marks[p] == 0 then [out[p]] else backs[p]) == t[i..j]
    requires Sub(out, marks, backs, q) == t[j..]
    ensures Sub(out, marks, backs, p) == t[i..]
  {
    assert t[i..] == t[i..j] + t[j..];
  }

  // ---- When everything comes back -------------------------------------------------------------------------

  /** The placeholder sent for the call `f` stands for `f` itself. */
  ghost predicate Returns(person: Persons, naming: Naming, f: string)
    requires f in person && person[f] in naming.numbers
  {
    var m := Mark(naming.numbers[person[f]]);
    m in naming.surface && naming.surface[m] == f
  }

  /** Nobody is called by two forms. */
  ghost predicate OneForm(person: Persons, calls: seq<string>)
    requires AllIn(calls, person)
  {
    forall f, g | f in calls && g in calls :: person[f] == person[g] ==> f == g
  }

  /** A call is sent as a placeholder that stands for the form its person was first called by. */
  lemma ReturnsFirstForm(person: Persons, calls: seq<string>, f: string) returns (first: string)
    requires AllIn(calls, person) && f in calls
    ensures first in calls && person[first] == person[f]
    ensures var naming := After(person, calls);
      var m := Mark(naming.numbers[person[f]]);
      m in naming.surface && naming.surface[m] == first
  {
    hide FirstFrom, Mark, People, After;
    var people := People(person, calls);
    NumberedByFirstAppearance(person, calls);
    SurfaceIsFirstForm(person, calls);
    var c :| 0 <= c < |calls| && calls[c] == f;
    var i :| 0 <= i < |people| && people[i] == person[calls[c]];
    assert Ranked(After(person, calls).numbers, people, i);
    assert CalledAt(person, calls, people, i);
    assert StandsForFirst(person, calls, people, After(person, calls).surface, i);
    first := calls[FirstCall(person, calls, people[i])];
  }

  /** Every call comes back as the form that stood there exactly when nobody is called by two forms. */
  lemma EachReturnsExactly(person: Persons, calls: seq<string>)
    requires AllIn(calls, person)
    ensures (forall f | f in calls :: Returns(person, After(person, calls), f)) <==> OneForm(person, calls)
  {
    var naming := After(person, calls);
    if OneForm(person, calls) {
      forall f | f in calls ensures Returns(person, naming, f) { var g := ReturnsFirstForm(person, calls, f); }
    } else {
      var f, g :| f in calls && g in calls && person[f] == person[g] && f != g;
      if Returns(person, naming, f) { assert !Returns(person, naming, g); }
    }
  }

  /** No placeholder of the surface is written in the text. */
  ghost predicate NoneWritten(surface: Surface, t: string) { forall m | m in surface :: !Occurs(m, t) }

  ghost predicate ComesBackAs(person: Persons, naming: Naming, f: string) {
    f in person && person[f] in naming.numbers && Returns(person, naming, f)
  }

  lemma {:induction false} CallsComeBack(person: Persons, naming: Naming, t: string, i: nat, own: seq<string>,
                                         surface: Surface, hits: seq<nat>, put: seq<string>)
    requires i <= |t| && Fits(t, hits, put) && naming.surface == surface && own == Calls(Pieces(person, t, i))
    requires forall j | 0 <= j < |t| :: PutAt(person, naming.numbers, t, j, hits[j], put[j])
    requires forall f | f in own :: ComesBackAs(person, naming, f)
    ensures ComesBack(t, hits, put, surface, i)
    decreases |t| - i
  {
    hide Pieces, Calls, FoundAt, Mark;
    if i < |t| {
      assert PutAt(person, naming.numbers, t, i, hits[i], put[i]);
      var next, rest := CallsStep(person, t, i, own);
      CallsComeBack(person, naming, t, next, rest, surface, hits, put);
      if hits[i] > 0 { assert ComesBackAs(person, naming, own[0]); }
    }
  }

  lemma CallsStep(person: Persons, t: string, i: nat, own: seq<string>) returns (next: nat, rest: seq<string>)
    requires i < |t| && own == Calls(Pieces(person, t, i))
    ensures var k := FoundAt(person, t, i);
      && next == (if k == 0 then i + 1 else i + k) && rest == Calls(Pieces(person, t, next))
      && own == (if k == 0 then [] else [t[i..i + k]]) + rest
    ensures forall f | f in rest :: f in own
  {
    var k := FoundAt(person, t, i);
    next := if k == 0 then i + 1 else i + k;
    var pieces := Pieces(person, t, next);
    assert Pieces(person, t, i)[1..] == pieces;
    rest := Calls(pieces);
  }

  ghost predicate AllAmong(forms: seq<string>, calls: seq<string>) { forall f | f in forms :: f in calls }

  function Flat(each: seq<seq<string>>): seq<string> {
    if each == [] then [] else Flat(each[..|each| - 1]) + each[|each| - 1]
  }

  lemma {:induction false} AmongFlat(each: seq<seq<string>>, k: nat)
    requires k < |each|
    ensures AllAmong(each[k], Flat(each))
  {
    if k < |each| - 1 { AmongFlat(each[..|each| - 1], k); }
  }

  lemma CallsUpToStep(person: Persons, texts: seq<string>, n: nat) returns (before: seq<string>, last: seq<string>)
    requires 0 < n <= |texts|
    ensures before == CallsUpTo(person, texts, n - 1) && last == Calls(Pieces(person, texts[n - 1], 0))
    ensures CallsUpTo(person, texts, n) == before + last
  {
    before, last := CallsUpTo(person, texts, n - 1), Calls(Pieces(person, texts[n - 1], 0));
  }

  lemma NoCallsYet(person: Persons, texts: seq<string>)
    ensures CallsUpTo(person, texts, 0) == []
  {
  }

  lemma {:induction false} CallsAreFlat(person: Persons, texts: seq<string>, n: nat) returns (each: seq<seq<string>>)
    requires n <= |texts|
    ensures |each| == n && forall k | 0 <= k < n :: each[k] == Calls(Pieces(person, texts[k], 0))
    ensures Flat(each) == CallsUpTo(person, texts, n)
  {
    hide Calls, Pieces, CallsUpTo;
    if n == 0 {
      each := [];
      NoCallsYet(person, texts);
    } else {
      var before := CallsAreFlat(person, texts, n - 1);
      var earlier, last := CallsUpToStep(person, texts, n);
      each := before + [last];
      assert each[..n - 1] == before;
    }
  }

  lemma {:induction false} SurfaceHoldsForms(person: Persons, calls: seq<string>)
    requires AllIn(calls, person)
    ensures forall m | m in After(person, calls).surface ::
      After(person, calls).surface[m] in person && IsPlaceholder(m)
  {
    if calls != [] {
      assert forall f | f in calls[..|calls| - 1] :: f in calls;
      SurfaceHoldsForms(person, calls[..|calls| - 1]);
    }
  }

  /** What `substitute` hands on for `restore`. */
  function SurfaceOf(person: Persons, texts: seq<string>): (surface: Surface)
    ensures surface == NamingOf(person, texts).surface
  {
    SurfaceHoldsForms(person, AllCalls(person, texts));
    NamingOf(person, texts).surface
  }

  /** What is sent for text `k` is restored to that text. */
  ghost predicate RoundTrip(person: Persons, texts: seq<string>, decimal: set<char>, k: nat)
    requires k < |texts|
  {
    Restored(Sent(person, NamingOf(person, texts).numbers, texts[k]), SurfaceOf(person, texts), decimal) == texts[k]
  }

  /** When nobody is called by two forms in the texts and no placeholder that was given is written in a text, it comes
      back whole. */
  lemma RestoresEachText(person: Persons, texts: seq<string>, decimal: set<char>, k: nat)
    requires DigitsOnly(decimal) && OneForm(person, AllCalls(person, texts)) && k < |texts|
    requires NoneWritten(SurfaceOf(person, texts), texts[k])
    ensures RoundTrip(person, texts, decimal, k)
  {
    var t, naming, calls := texts[k], NamingOf(person, texts), AllCalls(person, texts);
    EachReturnsExactly(person, calls);
    var own := Calls(Pieces(person, t, 0));
    var each := CallsAreFlat(person, texts, |texts|);
    AmongFlat(each, k);
    forall f | f in own ensures ComesBackAs(person, naming, f) { assert Returns(person, After(person, calls), f); }
    RestoresText(person, naming, t, own, SurfaceOf(person, texts), decimal);
  }

  lemma RestoresText(person: Persons, naming: Naming, t: string, own: seq<string>, surface: Surface, decimal: set<char>)
    requires DigitsOnly(decimal) && NoneWritten(surface, t) && naming.surface == surface
    requires own == Calls(Pieces(person, t, 0)) && forall f | f in own :: ComesBackAs(person, naming, f)
    ensures Restored(Sent(person, naming.numbers, t), surface, decimal) == t
  {
    hide Pieces, Calls, Render, Sub, FoundAt, Mark, Restored, NoneWritten, ComesBack, ComesBackAs, DigitsOnly, NumberOf;
    var hits, put := Founds(person, t), Placeholders(person, naming.numbers, t);
    FoundsFit(person, naming.numbers, t);
    CallsComeBack(person, naming, t, 0, own, surface, hits, put);
    RenderIsSub(person, naming.numbers, t, 0, hits, put);
    assert AllPlaceholders(hits, put);
    RestoresSub(t, hits, put, surface, decimal, Sub(t, hits, put, 0));
  }

  lemma RestoresSub(t: string, hits: seq<nat>, put: seq<string>, surface: Surface, decimal: set<char>, out: string)
    requires DigitsOnly(decimal) && NoneWritten(surface, t)
    requires Fits(t, hits, put) && AllPlaceholders(hits, put) && out == Sub(t, hits, put, 0)
    requires ComesBack(t, hits, put, surface, 0)
    ensures Restored(out, surface, decimal) == t
  {
    var marks, backs := Marks(out, decimal), Backs(out, surface, decimal);
    assert out[0..] == out && t[0..] == t;
    assert Aligned(t, hits, put, surface, 0, out, 0);
    RestoresFrom(t, hits, put, surface, decimal, 0, out, marks, backs, 0);
  }

  /** A text that is one form is one call. */
  lemma FormIsOneCall(person: Persons, f: string)
    requires f in person
    ensures Pieces(person, f, 0) == [Called(f)] && Calls(Pieces(person, f, 0)) == [f]
  {
    assert f[0..0 + |f|] == f;
    assert FormAt(person, f, 0, |f|);
    assert Pieces(person, f, |f|) == [];
    assert [Called(f)][1..] == [];
  }

  lemma {:induction false} FormsAreCalls(person: Persons, texts: seq<string>, k: nat)
    requires AllIn(texts, person) && k <= |texts|
    ensures CallsUpTo(person, texts, k) == texts[..k]
  {
    hide Pieces, Calls, CallsUpTo;
    if k == 0 {
      NoCallsYet(person, texts);
    } else {
      FormsAreCalls(person, texts, k - 1);
      FormIsOneCall(person, texts[k - 1]);
      var before, last := CallsUpToStep(person, texts, k);
      assert texts[..k] == texts[..k - 1] + [texts[k - 1]];
    }
  }

  /** A person first called `f` and then `g` is sent as `[사람1]` both times, and that stands for `f`. */
  lemma BothAreFirst(person: Persons, f: string, g: string)
    requires f in person && g in person && person[f] == person[g]
    ensures var naming := NamingOf(person, [f, g]);
      Sent(person, naming.numbers, g) == Mark(1) && naming.surface == map[Mark(1) := f]
  {
    hide Mark, Pieces, Calls;
    var texts := [f, g];
    FormsAreCalls(person, texts, 2);
    assert texts[..2] == [f] + [g] && [] + [f] == [f];
    AfterSnoc(person, [], f);
    AfterSnoc(person, [f], g);
    FormIsOneCall(person, g);
    RenderCons(Called(g), [], person, NamingOf(person, texts).numbers);
    assert [Called(g)] + [] == [Called(g)];
  }

  /** Then the second text comes back as `f`. */
  lemma TwoFormsLoseOne(person: Persons, f: string, g: string, decimal: set<char>)
    requires f in person && g in person && person[f] == person[g] && f != g && DigitsOnly(decimal)
    requires !Occurs(Mark(1), g)
    ensures Unmarked(person, [f, g], 1) && !RoundTrip(person, [f, g], decimal, 1)
  {
    hide Sent, NamingOf, Restored, MarkAt, DigitsOnly, Occurs;
    var out := Mark(1);
    BothAreFirst(person, f, g);
    assert out[0..0 + |out|] == out;
    MarkIsMatched(out, 0, 1, decimal);
    LoneMark(out, SurfaceOf(person, [f, g]), decimal);
  }

  lemma LoneMark(out: string, surface: Surface, decimal: set<char>)
    requires out != [] && MarkAt(out, 0, decimal) == |out| && out in surface
    ensures Restored(out, surface, decimal) == surface[out]
  {
    var marks, backs := Marks(out, decimal), Backs(out, surface, decimal);
    assert out[0..0 + |out|] == out;
    assert backs[0] == BackAt(out, surface, 0, marks[0]);
    SubStep(out, marks, backs, 0);
    assert surface[out] + [] == surface[out];
  }

  /** Nobody has two forms. */
  ghost predicate OneFormEach(person: Persons) {
    forall f, g | f in person && g in person :: person[f] == person[g] ==> f == g
  }

  /** No placeholder that was given is written in text `k`. */
  ghost predicate Unmarked(person: Persons, texts: seq<string>, k: nat)
    requires k < |texts|
  {
    NoneWritten(SurfaceOf(person, texts), texts[k])
  }

  /** Every text of every list comes back whole, unless a placeholder that was given is written in it, exactly when
      nobody on the roster has two forms. */
  lemma RoundTripsExactly(person: Persons, decimal: set<char>)
    requires DigitsOnly(decimal) && forall f | f in person :: !Occurs(Mark(1), f)
    ensures (forall texts, k: nat | k < |texts| && Unmarked(person, texts, k) :: RoundTrip(person, texts, decimal, k))
            <==> OneFormEach(person)
  {
    hide RoundTrip, Mark, Occurs, DigitsOnly, Unmarked;
    if OneFormEach(person) {
      forall texts, k: nat | k < |texts| && Unmarked(person, texts, k)
        ensures RoundTrip(person, texts, decimal, k)
      {
        AnyTextReturns(person, texts, decimal, k);
      }
    } else {
      var f, g :| f in person && g in person && person[f] == person[g] && f != g;
      TwoFormsLoseOne(person, f, g, decimal);
      assert !RoundTrip(person, [f, g], decimal, 1);
    }
  }

  lemma AnyTextReturns(person: Persons, texts: seq<string>, decimal: set<char>, k: nat)
    requires OneFormEach(person) && DigitsOnly(decimal) && k < |texts| && Unmarked(person, texts, k)
    ensures RoundTrip(person, texts, decimal, k)
  {
    hide RoundTrip, DigitsOnly;
    RestoresEachText(person, texts, decimal, k);
  }

  // ---- Which forms are sent -------------------------------------------------------------------------------

  lemma {:induction false} CalledAreCalls(ps: seq<Piece>)
    ensures forall k | 0 <= k < |ps| && ps[k].Called? :: ps[k].form in Calls(ps)
  {
    if ps != [] { CalledAreCalls(ps[1..]); }
  }

  /** The numbers are those of people on the roster, from 1 to how many there are. */
  ghost predicate AmongPeople(person: Persons, numbers: map<string, nat>) {
    numbers.Keys <= person.Values && forall p | p in numbers :: 1 <= numbers[p] <= |person.Values|
  }

  lemma NumbersAmongPeople(person: Persons, calls: seq<string>)
    requires AllIn(calls, person)
    ensures AmongPeople(person, After(person, calls).numbers)
  {
    var numbers, people := After(person, calls).numbers, People(person, calls);
    NumberedByFirstAppearance(person, calls);
    PeopleByFirstCall(person, calls);
    forall p | p in numbers ensures p in person.Values && 1 <= numbers[p] <= |people| {
      var i :| 0 <= i < |people| && people[i] == p;
      assert CalledAt(person, calls, people, i) && Ranked(numbers, people, i);
    }
    Fewer(numbers.Keys, person.Values);
  }

  lemma Fewer(a: set<string>, b: set<string>)
    requires a <= b
    ensures |a| <= |b|
  {
    assert b == a + (b - a);
  }

  /** Everybody gets a number: those without one, the first. */
  ghost function Filled(person: Persons, numbers: map<string, nat>): (all: map<string, nat>)
    requires AmongPeople(person, numbers)
    ensures Grows(numbers, all)
    ensures forall f | f in person :: 1 <= NumberOf(person, all, f) <= |person.Values|
  {
    var all := map p | p in person.Values :: if p in numbers then numbers[p] else 1;
    assert forall f | f in person :: person[f] in all && {person[f]} <= person.Values;
    assert person != map[] ==> |person.Values| > 0;
    all
  }

  /** A form without brackets that is sent is part of what a placeholder of somebody on the roster holds. */
  lemma SentInsideAMark(person: Persons, texts: seq<string>, k: nat, form: string) returns (n: nat)
    requires form in person && '[' !in form && ']' !in form && k < |texts| && SentIn(person, texts, k, form)
    ensures 1 <= n <= |person.Values| && InsideMark(form, n)
  {
    hide Render, Pieces, Calls, After, CallsUpTo, Mark;
    var numbers, ps := NamingOf(person, texts).numbers, Pieces(person, texts[k], 0);
    NumbersAmongPeople(person, AllCalls(person, texts));
    var each := CallsAreFlat(person, texts, |texts|);
    AmongFlat(each, k);
    CalledAreCalls(ps);
    assert Numbered(ps, person, numbers);
    var all := Filled(person, numbers);
    RenderLater(ps, person, numbers, all);
    var f := FormIsOfAMark(person, all, texts[k], form);
    n := NumberOf(person, all, f);
  }

  /** No two of the forms are of one person. */
  ghost predicate Distinct(person: Persons, forms: seq<string>)
    requires AllIn(forms, person)
  {
    forall i, j | 0 <= i < j < |forms| :: person[forms[i]] != person[forms[j]]
  }

  /** `n` people, each by a form of theirs. */
  lemma Different(person: Persons, n: nat) returns (forms: seq<string>, people: set<string>)
    requires n <= |person.Values|
    ensures |forms| == n == |people| && AllIn(forms, person) && Distinct(person, forms)
    ensures people <= person.Values && forall f | f in forms :: person[f] in people
  {
    if n == 0 {
      forms, people := [], {};
    } else {
      var front, earlier := Different(person, n - 1);
      assert !(person.Values <= earlier) by { if person.Values <= earlier { Fewer(person.Values, earlier); } }
      var p :| p in person.Values && p !in earlier;
      var f :| f in person && person[f] == p;
      forms, people := front + [f], earlier + {p};
      assert forall i | 0 <= i < n - 1 :: forms[i] == front[i] && front[i] in front;
    }
  }

  /** The numbers are as many as the calls, and only people who are called have one. */
  ghost predicate OneEach(person: Persons, calls: seq<string>, numbers: map<string, nat>)
    requires AllIn(calls, person)
  {
    |numbers| == |calls| && forall p | p in numbers :: exists i :: 0 <= i < |calls| && person[calls[i]] == p
  }

  lemma OneMore(person: Persons, calls: seq<string>, form: string, naming: Naming)
    requires AllIn(calls, person) && form in person && OneEach(person, calls, naming.numbers)
    requires Distinct(person, calls + [form])
    ensures var numbers := Step(person, naming, form).numbers;
      OneEach(person, calls + [form], numbers) && NumberOf(person, numbers, form) == |calls| + 1
  {
    hide Mark;
    var all, p := calls + [form], person[form];
    forall i | 0 <= i < |calls| ensures person[calls[i]] != p { assert all[i] == calls[i] && all[|calls|] == form; }
    var numbers := naming.numbers[p := |naming.numbers| + 1];
    forall q | q in numbers ensures exists i :: 0 <= i < |all| && person[all[i]] == q {
      if q == p {
        assert all[|calls|] == form;
      } else {
        var i :| 0 <= i < |calls| && person[calls[i]] == q;
        assert all[i] == calls[i];
      }
    }
  }

  /** Different people are numbered as they come. */
  lemma {:induction false} DifferentAreNumbered(person: Persons, calls: seq<string>)
    requires AllIn(calls, person) && Distinct(person, calls)
    ensures OneEach(person, calls, After(person, calls).numbers)
    ensures calls != [] ==> NumberOf(person, After(person, calls).numbers, calls[|calls| - 1]) == |calls|
  {
    if calls != [] {
      hide OneEach, Step, NumberOf;
      var front, form := calls[..|calls| - 1], calls[|calls| - 1];
      assert calls == front + [form];
      assert forall f | f in front :: f in calls;
      DifferentAreNumbered(person, front);
      OneMore(person, front, form, After(person, front));
    }
  }

  /** The last of `n` different people is sent as the mark of `n`. */
  lemma LastIsMarked(person: Persons, texts: seq<string>)
    requires texts != [] && AllIn(texts, person) && Distinct(person, texts)
    ensures Sent(person, NamingOf(person, texts).numbers, texts[|texts| - 1]) == Mark(|texts|)
  {
    var numbers, form := NamingOf(person, texts).numbers, texts[|texts| - 1];
    FormsAreCalls(person, texts, |texts|);
    assert texts[..|texts|] == texts;
    DifferentAreNumbered(person, texts);
    FormIsOneCall(person, form);
    RenderCons(Called(form), [], person, numbers);
    assert [Called(form)] + [] == [Called(form)];
  }

  ghost predicate SentIn(person: Persons, texts: seq<string>, k: nat, form: string)
    requires k < |texts|
  {
    Occurs(form, Sent(person, NamingOf(person, texts).numbers, texts[k]))
  }

  ghost predicate InsideMark(form: string, n: nat) { Occurs(form, PERSON + Decimal(n)) }

  /** A form without brackets is in nothing that is sent exactly when it is no part of the word and the number that the
      placeholder of anybody on the roster holds. */
  lemma FormIsSentExactly(person: Persons, form: string)
    requires form in person && '[' !in form && ']' !in form
    ensures (forall texts, k: nat | k < |texts| :: !SentIn(person, texts, k, form))
            <==> (forall n: nat | 1 <= n <= |person.Values| :: !InsideMark(form, n))
  {
    hide SentIn, InsideMark;
    forall texts, k: nat | k < |texts| && SentIn(person, texts, k, form)
      ensures exists n: nat :: 1 <= n <= |person.Values| && InsideMark(form, n)
    {
      var n := SentInsideAMark(person, texts, k, form);
    }
    forall n: nat | 1 <= n <= |person.Values| && InsideMark(form, n)
      ensures exists texts, k: nat :: k < |texts| && SentIn(person, texts, k, form)
    {
      var texts := InsideAMarkSent(person, form, n);
      assert SentIn(person, texts, n - 1, form);
    }
  }

  lemma InsideAMarkSent(person: Persons, form: string, n: nat) returns (texts: seq<string>)
    requires 1 <= n <= |person.Values| && InsideMark(form, n)
    ensures |texts| == n && SentIn(person, texts, n - 1, form)
  {
    hide Sent, NamingOf, Mark;
    var people;
    texts, people := Different(person, n);
    LastIsMarked(person, texts);
    InMark(form, n);
  }

  /** Somebody called by the very word of the placeholders is sent by name. */
  lemma TheWordIsSent(person: Persons) returns (texts: seq<string>)
    requires PERSON in person
    ensures |texts| == 1 && SentIn(person, texts, 0, PERSON)
  {
    hide SentIn;
    var inner := PERSON + Decimal(1);
    assert inner[0..0 + 2] == PERSON;
    assert OccursAt(PERSON, inner, 0);
    assert person[PERSON] in person.Values;
    texts := InsideAMarkSent(person, PERSON, 1);
  }

  lemma InMark(form: string, n: nat)
    requires InsideMark(form, n)
    ensures Occurs(form, Mark(n))
  {
    var inner := PERSON + Decimal(n);
    var p: nat :| OccursAt(form, inner, p);
    assert forall j | 0 <= j < |form| :: form[j] == inner[p..p + |form|][j];
    OccursThere(form, Mark(n), p + 1);
  }
}
