/**
 The CSS-grid puzzle game: a fixed bank of puzzles, each solved by typing a
 set of Tailwind class names. The typed text is tokenised (trim, split on the
 space character, drop empty pieces, collect into a set) and compared as a
 set with the puzzle's solution; a wrong answer gets one of two messages.
 */
module GridGame {
  import opened Optional
  import opened JsString

  // ---------------------------------------------------------------- bank

  datatype Layout =
    | Container
    | Item(targetItemIndex: int, containerClasses: string)

  datatype Puzzle = Puzzle(layout: Layout, solution: seq<string>, itemsCount: nat)

  /** The puzzles, in the order they are played. */
  const Bank: seq<Puzzle> := [
    Puzzle(Container, ["grid-cols-4"], 4),
    Puzzle(Container, ["grid-cols-2", "grid-rows-2"], 4),
    Puzzle(Item(0, "grid grid-cols-3 grid-rows-2"), ["col-span-2"], 5),
    Puzzle(Item(2, "grid grid-cols-4 grid-rows-2"), ["col-start-4"], 4),
    Puzzle(Item(1, "grid grid-cols-3 grid-rows-3"), ["col-span-2", "row-span-2"], 6)
  ]

  /** A class name as a user would type it: non-empty and free of whitespace. */
  predicate IsClassName(w: string) {
    |w| > 0 && forall i :: 0 <= i < |w| ==> !IsWhitespace(w[i])
  }

  predicate Distinct(ws: seq<string>) {
    forall j, k :: 0 <= j < k < |ws| ==> ws[j] != ws[k]
  }

  predicate WellFormedPuzzle(p: Puzzle) {
    && |p.solution| > 0
    && Distinct(p.solution)
    && (forall k :: 0 <= k < |p.solution| ==> IsClassName(p.solution[k]))
    && (p.layout.Item? ==> 0 <= p.layout.targetItemIndex < p.itemsCount)
  }

  // ----------------------------------------------------------- tokeniser

  predicate AllSpaces(c: string) {
    forall i :: 0 <= i < |c| ==> c[i] == ' '
  }

  /** `s.split(' ').filter(Boolean)`, collected into a set. */
  function Words(s: string): set<string> {
    set t | t in SplitOnSpace(s) && t != ""
  }

  /** The typed class list: trimmed, cut at every space, empty pieces dropped, kept as a set. */
  function Tokenize(input: string): set<string> {
    Words(Trim(input))
  }

  /** No token is empty, and none contains a space. */
  lemma TokensAreNonEmptyAndSpaceFree(input: string)
    ensures "" !in Tokenize(input)
    ensures forall t :: t in Tokenize(input) ==> |t| > 0 && ' ' !in t
  {
  }

  lemma WordsAppend(a: string, b: string)
    ensures Words(a + " " + b) == Words(a) + Words(b)
  {
    SplitAppend(a, b);
  }

  /** Any non-empty run of spaces separates words exactly like a single space. */
  lemma {:induction false} WordsAcrossSpaces(x: string, c: string, y: string)
    requires |c| > 0 && AllSpaces(c)
    ensures Words(x + c + y) == Words(x) + Words(y)
    decreases |c|
  {
    assert c == " " + c[1..];
    if |c| == 1 {
      assert x + c + y == x + " " + y;
      WordsAppend(x, y);
    } else {
      assert x + c + y == x + " " + (c[1..] + y);
      WordsAppend(x, c[1..] + y);
      WordsAcrossSpaces("", c[1..], y);
      assert "" + c[1..] + y == c[1..] + y;
      assert Words("") == {};
    }
  }

  lemma WhitespaceConcat(x: string, y: string)
    ensures AllWhitespace(x + y) <==> AllWhitespace(x) && AllWhitespace(y)
  {
    if AllWhitespace(x + y) {
      forall i | 0 <= i < |x| ensures IsWhitespace(x[i]) { assert x[i] == (x + y)[i]; }
      forall i | 0 <= i < |y| ensures IsWhitespace(y[i]) { assert y[i] == (x + y)[|x| + i]; }
    }
  }

  /** Whitespace (of any kind) before or after the input is ignored. */
  lemma TokenizeIgnoresPadding(pre: string, s: string, post: string)
    requires AllWhitespace(pre) && AllWhitespace(post)
    ensures Tokenize(pre + s + post) == Tokenize(s)
  {
    TrimIgnoresPadding(pre, s, post);
  }

  /** A run of spaces after all-whitespace text is leading padding. */
  lemma TokenizeAfterBlank(a: string, c: string, b: string)
    requires AllWhitespace(a) && AllSpaces(c)
    ensures Tokenize(a + c + b) == Tokenize(b)
  {
    assert AllWhitespace(c);
    WhitespaceConcat(a, c);
    TrimIgnoresPadding(a + c, b, "");
    assert a + c + b + "" == a + c + b;
  }

  /** A run of spaces before all-whitespace text is trailing padding. */
  lemma TokenizeBeforeBlank(a: string, c: string, b: string)
    requires AllWhitespace(b) && AllSpaces(c)
    ensures Tokenize(a + c + b) == Tokenize(a)
  {
    assert AllWhitespace(c);
    WhitespaceConcat(c, b);
    var pre: string := [];
    assert AllWhitespace(pre);
    assert pre + a + (c + b) == a + c + b;
    TrimIgnoresPadding(pre, a, c + b);
  }

  /** Between two non-blank parts, a run of spaces survives `trim` and separates tokens. */
  lemma TokenizeBetween(a: string, c: string, b: string)
    requires !AllWhitespace(a) && !AllWhitespace(b)
    requires |c| > 0 && AllSpaces(c)
    ensures Trim(a + c + b) == TrimStart(a) + c + TrimEnd(b)
  {
    assert AllWhitespace(c);
    assert a + c + b == a + (c + b);
    TrimStartAppend(a, c + b);
    WhitespaceConcat(c, b);
    assert TrimStart(a) + (c + b) == (TrimStart(a) + c) + b;
    TrimEndAppend(TrimStart(a) + c, b);
  }

  /** What a run of spaces between two parts of the input does to the token set. */
  lemma TokenizeAcrossSpaces(a: string, c: string, b: string)
    requires |c| > 0 && AllSpaces(c)
    ensures Tokenize(a + c + b) ==
      if AllWhitespace(a) then Tokenize(b)
      else if AllWhitespace(b) then Tokenize(a)
      else Words(TrimStart(a)) + Words(TrimEnd(b))
  {
    if AllWhitespace(a) {
      TokenizeAfterBlank(a, c, b);
    } else if AllWhitespace(b) {
      TokenizeBeforeBlank(a, c, b);
    } else {
      TokenizeBetween(a, c, b);
      WordsAcrossSpaces(TrimStart(a), c, TrimEnd(b));
    }
  }

  /** Repeated spaces between tokens do not change the token set. */
  lemma TokenizeCollapsesSpaces(a: string, c1: string, c2: string, b: string)
    requires |c1| > 0 && AllSpaces(c1)
    requires |c2| > 0 && AllSpaces(c2)
    ensures Tokenize(a + c1 + b) == Tokenize(a + c2 + b)
  {
    TokenizeAcrossSpaces(a, c1, b);
    TokenizeAcrossSpaces(a, c2, b);
  }

  lemma {:induction false} JoinEnds(ws: seq<string>)
    requires |ws| > 0
    requires forall k :: 0 <= k < |ws| ==> |ws[k]| > 0
    ensures var j := JoinWithSpace(ws); var l := ws[|ws| - 1];
      |j| > 0 && j[0] == ws[0][0] && j[|j| - 1] == l[|l| - 1]
    decreases |ws|
  {
    if |ws| > 1 {
      JoinEnds(ws[1..]);
    }
  }

  /** Joined class names carry no whitespace at either end. */
  lemma TrimJoined(ws: seq<string>)
    requires forall k :: 0 <= k < |ws| ==> IsClassName(ws[k])
    ensures Trim(JoinWithSpace(ws)) == JoinWithSpace(ws)
  {
    if |ws| > 0 {
      var j := JoinWithSpace(ws);
      JoinEnds(ws);
      var l := ws[|ws| - 1];
      assert IsClassName(l) && IsClassName(ws[0]);
      assert TrimStart(j) == j;
    }
  }

  /** Splitting joined class names gives back the names. */
  lemma WordsJoined(ws: seq<string>)
    requires forall k :: 0 <= k < |ws| ==> IsClassName(ws[k])
    ensures Words(JoinWithSpace(ws)) == set w | w in ws
  {
    if |ws| > 0 {
      forall k | 0 <= k < |ws| ensures ' ' !in ws[k] {
        assert IsClassName(ws[k]) && IsWhitespace(' ');
      }
      SplitJoin(ws);
    }
  }

  /** Class names joined by single spaces tokenise to exactly the set of those names,
      whatever their order and however often each occurs. */
  lemma TokenizeJoined(ws: seq<string>)
    requires forall k :: 0 <= k < |ws| ==> IsClassName(ws[k])
    ensures Tokenize(JoinWithSpace(ws)) == set w | w in ws
  {
    TrimJoined(ws);
    WordsJoined(ws);
  }

  /** Only the space character separates tokens: two class names joined by a tab
      form a single token. */
  lemma TabIsNotASeparator(a: string, b: string)
    requires IsClassName(a) && IsClassName(b)
    ensures Tokenize(a + "\t" + b) == {a + "\t" + b}
  {
    var t := a + "\t" + b;
    assert t[0] == a[0] && t[|t| - 1] == b[|b| - 1];
    assert TrimStart(t) == t;
    assert TrimEnd(t) == t;
    assert ' ' !in t by {
      forall i | 0 <= i < |t| ensures t[i] != ' ' {
        assert IsWhitespace(' ');
        if i < |a| { assert t[i] == a[i]; }
        else if i > |a| { assert t[i] == b[i - |a| - 1]; }
      }
    }
    SplitSpaceFree(t);
  }

  // ------------------------------------------------------------- verdict

  datatype Verdict = Success | Error(needed: nat, provided: nat)

  /** The text shown with a verdict. */
  datatype Message = Praise | CheckClassNames | WrongCount(needed: nat, provided: nat)

  function SolutionSet(solution: seq<string>): set<string> {
    set c | c in solution
  }

  lemma SubsetOfSameSize(a: set<string>, b: set<string>)
    ensures a <= b && |a| == |b| ==> a == b
  {
    if a <= b && |a| == |b| {
      assert b == a + (b - a);
      assert |b - a| == 0;
    }
  }

  /** The verdict `checkSolution` reaches: sizes first, then every solution class
      must be among the typed ones. */
  function Evaluate(solution: seq<string>, input: string): (v: Verdict)
    ensures v.Success? <==> Tokenize(input) == SolutionSet(solution)
    ensures v.Error? ==> v.needed == |solution| && v.provided == |Tokenize(input)|
  {
    var user := Tokenize(input);
    var wanted := SolutionSet(solution);
    SubsetOfSameSize(wanted, user);
    if |user| == |wanted| && wanted <= user then Success
    else Error(|solution|, |user|)
  }

  /** The early-exit loop of `checkSolution`: is every solution class among the typed ones? */
  method AllPresent(solution: seq<string>, user: set<string>) returns (present: bool)
    ensures present <==> SolutionSet(solution) <= user
  {
    present := true;
    var i := 0;
    while i < |solution|
      invariant 0 <= i <= |solution|
      invariant present
      invariant forall j :: 0 <= j < i ==> solution[j] in user
    {
      if solution[i] !in user {
        present := false;
        break;
      }
      i := i + 1;
    }
  }

  /** `checkSolution`: compare the sizes, then run the membership loop. */
  method CheckSolution(solution: seq<string>, input: string) returns (v: Verdict)
    ensures v == Evaluate(solution, input)
  {
    var user := Tokenize(input);
    var isCorrect := true;
    if |user| != |SolutionSet(solution)| {
      isCorrect := false;
    } else {
      isCorrect := AllPresent(solution, user);
    }
    if isCorrect {
      v := Success;
    } else {
      v := Error(|solution|, |user|);
    }
  }

  function MessageFor(v: Verdict): Message {
    match v
    case Success => Praise
    case Error(needed, provided) =>
      if needed == provided then CheckClassNames else WrongCount(needed, provided)
  }

  /** The generic message appears exactly when the answer is wrong although the number
      of distinct typed classes equals the solution's length; otherwise both counts are reported. */
  lemma FeedbackMessage(solution: seq<string>, input: string)
    ensures var m := MessageFor(Evaluate(solution, input));
      && (m == Praise <==> Tokenize(input) == SolutionSet(solution))
      && (m == CheckClassNames <==>
            Tokenize(input) != SolutionSet(solution) && |solution| == |Tokenize(input)|)
      && (m.WrongCount? <==>
            Tokenize(input) != SolutionSet(solution) && |solution| != |Tokenize(input)|)
      && (m.WrongCount? ==> m.needed == |solution| && m.provided == |Tokenize(input)|)
  {
  }

  /** The verdict sees only the set of typed class names: order and repetition do not matter. */
  lemma VerdictIgnoresOrderAndRepetition(solution: seq<string>, ws1: seq<string>, ws2: seq<string>)
    requires forall k :: 0 <= k < |ws1| ==> IsClassName(ws1[k])
    requires forall k :: 0 <= k < |ws2| ==> IsClassName(ws2[k])
    requires forall w :: w in ws1 <==> w in ws2
    ensures Evaluate(solution, JoinWithSpace(ws1)) == Evaluate(solution, JoinWithSpace(ws2))
  {
    TokenizeJoined(ws1);
    TokenizeJoined(ws2);
    assert (set w | w in ws1) == (set w | w in ws2);
  }

  /** Every puzzle of the bank has a non-empty solution of distinct class names, and an
      item puzzle's target is one of its items. */
  lemma BankIsWellFormed()
    ensures forall i :: 0 <= i < |Bank| ==> WellFormedPuzzle(Bank[i])
  {
  }

  /** Every puzzle of the bank accepts its own solution typed with single spaces. */
  lemma BankSolutionsAccepted()
    ensures forall i :: 0 <= i < |Bank| ==>
      Evaluate(Bank[i].solution, JoinWithSpace(Bank[i].solution)) == Success
  {
    BankIsWellFormed();
    forall i | 0 <= i < |Bank|
      ensures Evaluate(Bank[i].solution, JoinWithSpace(Bank[i].solution)) == Success
    {
      TokenizeJoined(Bank[i].solution);
    }
  }

  // ---------------------------------------------------------- game state

  /** `puzzleIndex`, `userInput` and `feedback` of the game component. */
  datatype Game = Game(index: nat, input: string, feedback: Option<Verdict>)

  datatype NextLabel = NextChallenge | StartOver

  function InitialGame(): Game {
    Game(0, "", None)
  }

  /** The input field's change handler. */
  function TypeInput(g: Game, text: string): Game {
    g.(input := text)
  }

  /** The check button: evaluates the current input against the current puzzle. */
  function Check(g: Game): (r: Game)
    requires g.index < |Bank|
    ensures r.index == g.index && r.input == g.input
    ensures r.feedback == Some(Success) <==>
      Tokenize(g.input) == SolutionSet(Bank[g.index].solution)
    ensures r.feedback.Some?
    ensures r.feedback.value.Error? ==>
      r.feedback.value == Error(|Bank[g.index].solution|, |Tokenize(g.input)|)
  {
    g.(feedback := Some(Evaluate(Bank[g.index].solution, g.input)))
  }

  /** `nextPuzzle`: the following puzzle, wrapping round to the first, with a clean slate. */
  function NextPuzzle(g: Game): (r: Game)
    ensures r.index < |Bank| && r.input == "" && r.feedback == None
    ensures g.index < |Bank| - 1 ==> r.index == g.index + 1
    ensures g.index == |Bank| - 1 ==> r.index == 0
  {
    Game((g.index + 1) % |Bank|, "", None)
  }

  /** The button offered under the feedback, if any. */
  function NextButton(g: Game): Option<NextLabel> {
    if g.feedback == Some(Success) then
      Some(if g.index == |Bank| - 1 then StartOver else NextChallenge)
    else None
  }

  /** The "start over" label is shown exactly when pressing it returns to the first puzzle. */
  lemma StartOverMeansFirstPuzzle(g: Game)
    requires g.index < |Bank|
    ensures NextButton(g) == Some(StartOver) <==>
      g.feedback == Some(Success) && NextPuzzle(g).index == 0
  {
  }

  datatype GameEvent = Typed(text: string) | CheckPressed | NextPressed

  predicate GameEnabled(g: Game, e: GameEvent) {
    e.NextPressed? ==> NextButton(g).Some?
  }

  function ApplyGame(g: Game, e: GameEvent): Game
    requires g.index < |Bank|
  {
    match e
    case Typed(text) => TypeInput(g, text)
    case CheckPressed => Check(g)
    case NextPressed => NextPuzzle(g)
  }

  /** The index stays inside the bank, and a failure message always speaks about
      the puzzle on screen. */
  predicate GameInv(g: Game) {
    && g.index < |Bank|
    && (g.feedback.Some? && g.feedback.value.Error? ==>
          g.feedback.value.needed == |Bank[g.index].solution|)
  }

  lemma GameStep(g: Game, e: GameEvent)
    requires GameInv(g) && GameEnabled(g, e)
    ensures GameInv(ApplyGame(g, e))
    ensures ApplyGame(g, e).index != g.index ==> e.NextPressed? && g.feedback == Some(Success)
  {
  }

  predicate ValidGameRun(g: Game, es: seq<GameEvent>)
    decreases |es|
  {
    |es| == 0 || (g.index < |Bank| && GameEnabled(g, es[0]) && ValidGameRun(ApplyGame(g, es[0]), es[1..]))
  }

  function FinalGame(g: Game, es: seq<GameEvent>): Game
    requires ValidGameRun(g, es)
    decreases |es|
  {
    if |es| == 0 then g else FinalGame(ApplyGame(g, es[0]), es[1..])
  }

  /** Every state reachable through the interface satisfies the game invariant. */
  lemma {:induction false} GameRunKeepsInv(g: Game, es: seq<GameEvent>)
    requires GameInv(g) && ValidGameRun(g, es)
    ensures GameInv(FinalGame(g, es))
    decreases |es|
  {
    if |es| > 0 {
      GameStep(g, es[0]);
      GameRunKeepsInv(ApplyGame(g, es[0]), es[1..]);
    }
  }

  // ------------------------------------------------------------ examples

  /** Two class names separated by any run of spaces make two tokens. */
  lemma TokenizePair(a: string, c: string, b: string)
    requires IsClassName(a) && IsClassName(b)
    requires |c| > 0 && AllSpaces(c)
    ensures Tokenize(a + c + b) == {a, b}
  {
    TokenizeCollapsesSpaces(a, c, " ", b);
    TokenizeJoined([a, b]);
    assert JoinWithSpace([a, b]) == a + " " + b;
    assert (set w | w in [a, b]) == {a, b};
  }

  lemma ExampleTokens()
    ensures Tokenize("grid-cols-3   grid-rows-2") == {"grid-cols-3", "grid-rows-2"}
  {
    var a, b := "grid-cols-3", "grid-rows-2";
    assert "grid-cols-3   grid-rows-2" == a + "   " + b;
    TokenizePair(a, "   ", b);
  }

  /** A one-class puzzle accepts exactly the inputs whose token set is that one class. */
  lemma SingleClassVerdict(w: string, input: string)
    ensures Evaluate([w], input) == Success <==> Tokenize(input) == {w}
  {
    assert SolutionSet([w]) == {w};
  }

  /** A one-class puzzle accepts its class however it is padded or repeated, and
      answers any other single class with the generic message. */
  lemma SingleClassVerdicts(w: string, pad: string, other: string)
    requires IsClassName(w) && IsClassName(other) && w != other
    requires AllWhitespace(pad)
    ensures Evaluate([w], w + pad) == Success
    ensures Evaluate([w], w + " " + w) == Success
    ensures MessageFor(Evaluate([w], other)) == CheckClassNames
  {
    var none: string := [];
    assert none + w + pad == w + pad;
    TokenizeIgnoresPadding(none, w, pad);
    TokenizeJoined([w]);
    assert (set x | x in [w]) == {w};
    SingleClassVerdict(w, w + pad);
    TokenizeJoined([w, w]);
    assert JoinWithSpace([w, w]) == w + " " + w;
    assert (set x | x in [w, w]) == {w};
    SingleClassVerdict(w, w + " " + w);
    TokenizeJoined([other]);
    assert (set x | x in [other]) == {other};
    SingleClassVerdict(w, other);
  }

  lemma ExampleVerdicts()
    ensures Evaluate(["col-span-2"], "col-span-2 ") == Success
    ensures Evaluate(["col-span-2"], "col-span-2 col-span-2") == Success
    ensures MessageFor(Evaluate(["col-span-2"], "col-span-3")) == CheckClassNames
  {
    var w := "col-span-2";
    assert "col-span-2 " == w + " ";
    assert "col-span-2 col-span-2" == w + " " + w;
    SingleClassVerdicts(w, " ", "col-span-3");
  }
}
