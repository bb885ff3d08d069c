/** The command-line grammar (internal/command_parser/command_parser.go):
  * the words are re-split so that the separator `,` is a word of its own,
  * then read as `set NAME args…`, `query NAME args…` or `ACTION args…`,
  * each command taking at most as many arguments as its registered bounds
  * allow. The registry the parser looks names up in is the daemon's. */
module CommandParser {
  import opened Wrappers
  import opened Types
  import opened Commands

  const Separator: char := ','
  /** `COMMAND_SEPARATOR`, the separator as a word. */
  const CommandSeparator: string := [Separator]

  /** `splitAtSeq`: the pieces before, between and after the occurrences of
    * the separator, each occurrence a piece of its own and no piece empty.
    * `strings.Index` of a one-character separator is `IndexOf`. */
  function SplitAt(s: string, sep: char): seq<string>
    decreases |s|
  {
    if |s| == 0 then []
    else
      var i := IndexOf(s, sep);
      if i == -1 then [s]
      else (if i != 0 then [s[..i]] else []) + [[sep]] + SplitAt(s[i + 1..], sep)
  }

  /** Appending a group of pieces to what was yielded before. */
  lemma Grow(before: seq<string>, head: seq<string>, x: string, tail: seq<string>)
    ensures before + (head + [x] + tail) == (before + head + [x]) + tail
  {
  }

  /** The loop of `splitAtSeq`, yielding into a list. */
  method SplitAtSeq(s: string, sep: char) returns (pieces: seq<string>)
    ensures pieces == SplitAt(s, sep)
  {
    pieces := [];
    var rest := s;
    while |rest| != 0
      invariant SplitAt(s, sep) == pieces + SplitAt(rest, sep)
      decreases |rest|
    {
      var sepIndex := IndexOf(rest, sep);
      if sepIndex == -1 {
        pieces := pieces + [rest];
        return;
      }
      var head := if sepIndex != 0 then [rest[..sepIndex]] else [];
      Grow(pieces, head, [sep], SplitAt(rest[sepIndex + 1..], sep));
      pieces := pieces + head + [[sep]];
      rest := rest[sepIndex + 1..];
    }
    assert pieces + [] == pieces;
  }

  /** The words of a list, written one after the other. */
  function Concat(words: seq<string>): string
  {
    if words == [] then [] else words[0] + Concat(words[1..])
  }

  lemma {:induction false} ConcatAppend(a: seq<string>, b: seq<string>)
    ensures Concat(a + b) == Concat(a) + Concat(b)
    decreases |a|
  {
    if a == [] {
      assert a + b == b;
    } else {
      assert (a + b)[1..] == a[1..] + b;
      ConcatAppend(a[1..], b);
    }
  }

  /** A sequence is what comes before a position, the element there, and
    * what comes after. */
  lemma Around<T>(s: seq<T>, i: int)
    requires 0 <= i < |s|
    ensures s == s[..i] + [s[i]] + s[i + 1..]
  {
  }

  lemma ConcatOne(x: string)
    ensures Concat([x]) == x
  {
    assert Concat([x]) == x + Concat([]);
  }

  /** One step of the split: the piece before the first separator, if not
    * empty, then the separator, then the split of the rest. */
  lemma SplitStep(s: string, sep: char)
    requires IndexOf(s, sep) != -1
    ensures var i := IndexOf(s, sep);
      SplitAt(s, sep) == (if i != 0 then [s[..i]] else []) + [[sep]] + SplitAt(s[i + 1..], sep)
  {
  }

  /** Splitting loses and adds nothing: the pieces spell the input. */
  lemma {:induction false} SplitJoins(s: string, sep: char)
    ensures Concat(SplitAt(s, sep)) == s
    decreases |s|
  {
    if |s| > 0 {
      var i := IndexOf(s, sep);
      if i == -1 {
        ConcatOne(s);
      } else {
        var rest := s[i + 1..];
        var head := if i != 0 then [s[..i]] else [];
        SplitStep(s, sep);
        SplitJoins(rest, sep);
        ConcatAppend(head + [[sep]], SplitAt(rest, sep));
        ConcatAppend(head, [[sep]]);
        ConcatOne([sep]);
        if i != 0 {
          ConcatOne(s[..i]);
        }
        assert Concat(head) == s[..i];
        Around(s, i);
      }
    }
  }

  /** A word the split leaves whole: the separator alone, or a non-empty
    * word without it. */
  predicate IsToken(t: string, sep: char)
  {
    t == [sep] || (t != [] && sep !in t)
  }

  /** Every piece is the separator or a non-empty string free of it. */
  lemma {:induction false} SplitPieces(s: string, sep: char)
    ensures forall p :: p in SplitAt(s, sep) ==> IsToken(p, sep)
    decreases |s|
  {
    if |s| > 0 {
      var i := IndexOf(s, sep);
      if i != -1 {
        assert sep !in s[..i];
        SplitPieces(s[i + 1..], sep);
      }
    }
  }

  /** A token splits into itself. */
  lemma TokenSplitsToItself(t: string, sep: char)
    requires IsToken(t, sep)
    ensures SplitAt(t, sep) == [t]
  {
    if t == [sep] {
      assert t[1..] == [];
    }
  }

  /** A one-character piece and the separator after it. */
  lemma SplitPair(x: char, after: string, sep: char)
    requires x != sep
    ensures SplitAt([x, sep] + after, sep) == [[x], [sep]] + SplitAt(after, sep)
  {
    var s := [x, sep] + after;
    SplitAfterOne(s, sep);
    assert s[0] == x && s[2..] == after;
  }

  /** A string that starts with one character and the separator. */
  lemma SplitAfterOne(s: string, sep: char)
    requires |s| >= 2 && s[0] != sep && s[1] == sep
    ensures SplitAt(s, sep) == [[s[0]], [sep]] + SplitAt(s[2..], sep)
  {
    IndexOfUnique(s, sep, 1);
    assert s[..1] == [s[0]];
  }

  /** The example of the source's comment, `"a|b|c|"`, for any three
    * characters other than the separator. */
  lemma SplitExample(a: char, b: char, c: char, sep: char)
    requires a != sep && b != sep && c != sep
    ensures SplitAt([a, sep, b, sep, c, sep], sep) == [[a], [sep], [b], [sep], [c], [sep]]
  {
    var empty: string := [];
    var third := [c, sep] + empty;
    var second := [b, sep] + third;
    assert [a, sep, b, sep, c, sep] == [a, sep] + second;
    SplitPair(c, empty, sep);
    SplitPair(b, third, sep);
    SplitPair(a, second, sep);
    Pairs([a], [sep], [b], [sep], [c], [sep]);
  }

  lemma Pairs<T>(p: T, q: T, r: T, s: T, t: T, u: T)
    ensures [p, q] + ([r, s] + ([t, u] + [])) == [p, q, r, s, t, u]
  {
  }

  /** `resplitSeq` over `splitAtSeq`: the pieces of every word, in order. */
  function Resplit(words: seq<string>, sep: char): seq<string>
  {
    if words == [] then [] else SplitAt(words[0], sep) + Resplit(words[1..], sep)
  }

  /** Resplitting a concatenation is concatenating the resplit parts. */
  lemma {:induction false} ResplitAppend(a: seq<string>, b: seq<string>, sep: char)
    ensures Resplit(a + b, sep) == Resplit(a, sep) + Resplit(b, sep)
    decreases |a|
  {
    if a == [] {
      assert a + b == b;
    } else {
      assert (a + b)[1..] == a[1..] + b;
      ResplitAppend(a[1..], b, sep);
    }
  }

  /** Resplitting keeps every character in order, and every word it gives
    * is a token. */
  lemma {:induction false} ResplitTokens(words: seq<string>, sep: char)
    ensures Concat(Resplit(words, sep)) == Concat(words)
    ensures forall t :: t in Resplit(words, sep) ==> IsToken(t, sep)
    decreases |words|
  {
    if words != [] {
      ResplitTokens(words[1..], sep);
      SplitJoins(words[0], sep);
      SplitPieces(words[0], sep);
      ConcatAppend(SplitAt(words[0], sep), Resplit(words[1..], sep));
    }
  }

  /** Words that are already tokens are left as they are. */
  lemma {:induction false} ResplitOfTokens(words: seq<string>, sep: char)
    requires forall t :: t in words ==> IsToken(t, sep)
    ensures Resplit(words, sep) == words
    decreases |words|
  {
    if words != [] {
      TokenSplitsToItself(words[0], sep);
      ResplitOfTokens(words[1..], sep);
    }
  }

  /** ASCII upper case of one character. */
  function UpperChar(c: char): char
  {
    if 'a' <= c <= 'z' then (c as int - 'a' as int + 'A' as int) as char else c
  }

  /** `parseCommandType`: the kind word in upper case. */
  function ParseCommandType(word: string): CommandType
  {
    if word == [] then [] else [UpperChar(word[0])] + ParseCommandType(word[1..])
  }

  /** The kind is the word with every ASCII letter in upper case. */
  lemma {:induction false} UpperCased(word: string)
    ensures |ParseCommandType(word)| == |word|
    ensures forall i :: 0 <= i < |word| ==> ParseCommandType(word)[i] == UpperChar(word[i])
  {
    if word != [] {
      UpperCased(word[1..]);
      var rest := ParseCommandType(word[1..]);
      forall i | 0 < i < |word| ensures ParseCommandType(word)[i] == UpperChar(word[i]) {
        assert ParseCommandType(word)[i] == rest[i - 1];
      }
    }
  }

  /** The three kind words name the three kinds the parser produces. */
  lemma KindWords()
    ensures ParseCommandType("action") == ActionType
    ensures ParseCommandType("set") == SetType
    ensures ParseCommandType("query") == QueryType
  {
    ActionWord();
    SetWord();
    QueryWord();
  }

  /** `action` is the kind of actions. */
  lemma ActionWord()
    ensures ParseCommandType("action") == ActionType
  {
    assert ParseCommandType("n") == "N";
    assert ParseCommandType("on") == "ON";
    assert ParseCommandType("ion") == "ION";
    assert ParseCommandType("tion") == "TION";
    assert ParseCommandType("ction") == "CTION";
  }

  /** `set` is the kind of setters. */
  lemma SetWord()
    ensures ParseCommandType("set") == SetType
  {
    assert ParseCommandType("t") == "T";
    assert ParseCommandType("et") == "ET";
  }

  /** `query` is the kind of queries. */
  lemma QueryWord()
    ensures ParseCommandType("query") == QueryType
  {
    assert ParseCommandType("y") == "Y";
    assert ParseCommandType("ry") == "RY";
    assert ParseCommandType("ery") == "ERY";
    assert ParseCommandType("uery") == "UERY";
  }

  /** `pullUntilSepOrN`: up to `count` words, stopping at the end of input
    * or at the separator, which is consumed but not taken. Gives the words
    * taken, the number of words consumed, and whether `count` were taken. */
  function Pull(words: seq<string>, sep: string, count: nat): (r: (seq<string>, nat, bool))
    ensures |r.0| <= count && |r.0| <= r.1 <= |words|
    ensures r.2 <==> |r.0| == count
    decreases count
  {
    if count == 0 then ([], 0, true)
    else if words == [] then ([], 0, false)
    else if words[0] == sep then ([], 1, false)
    else
      var r := Pull(words[1..], sep, count - 1);
      ([words[0]] + r.0, r.1 + 1, r.2)
  }

  /** A pull takes the words in front, none of them the separator, and
    * consumes them and, if it stopped there, the separator. */
  lemma {:induction false} PullTakesFront(words: seq<string>, sep: string, count: nat)
    ensures var r := Pull(words, sep, count);
      && r.0 == words[..|r.0|] && sep !in r.0
      && (r.1 == |r.0| || (r.1 == |r.0| + 1 && words[|r.0|] == sep))
    decreases count
  {
    if count > 0 && words != [] && words[0] != sep {
      PullTakesFront(words[1..], sep, count - 1);
    }
  }

  /** A pull's outcome after `taken` words were already pulled. */
  function Behind(taken: seq<string>, r: (seq<string>, nat, bool)): (seq<string>, nat, bool)
  {
    (taken + r.0, |taken| + r.1, r.2)
  }

  /** Pulling one more word that is not the separator. */
  lemma PullStep(words: seq<string>, next: nat, sep: string, count: nat, taken: seq<string>)
    requires next < |words| && words[next] != sep && count > 0
    ensures Behind(taken, Pull(words[next..], sep, count))
      == Behind(taken + [words[next]], Pull(words[next + 1..], sep, count - 1))
  {
    var w := words[next..];
    assert w != [] && w[0] == words[next] && w[1..] == words[next + 1..];
    var r := Pull(words[next + 1..], sep, count - 1);
    assert Pull(w, sep, count) == ([words[next]] + r.0, r.1 + 1, r.2);
    assert taken + ([words[next]] + r.0) == (taken + [words[next]]) + r.0;
  }

  /** The loop of `pullUntilSepOrN`, pulling from position `pos`. */
  method PullUntilSepOrN(words: seq<string>, pos: nat, sep: string, count: nat)
    returns (taken: seq<string>, next: nat, full: bool)
    requires pos <= |words|
    ensures pos <= next <= |words|
    ensures (taken, next - pos, full) == Pull(words[pos..], sep, count)
  {
    taken := [];
    next := pos;
    var i := 0;
    assert [] + Pull(words[pos..], sep, count).0 == Pull(words[pos..], sep, count).0;
    while i < count
      invariant 0 <= i <= count && i == |taken| && pos + i == next <= |words|
      invariant Pull(words[pos..], sep, count) == Behind(taken, Pull(words[next..], sep, count - i))
    {
      if next == |words| || words[next] == sep {
        PullStops(words, next, sep, count - i, taken);
        if next < |words| {
          next := next + 1;
        }
        return taken, next, false;
      }
      var value := words[next];
      PullStep(words, next, sep, count - i, taken);
      next := next + 1;
      taken := taken + [value];
      i := i + 1;
    }
    PullStops(words, next, sep, 0, taken);
    full := true;
  }

  /** Pulling ends after `taken` words: `count` were taken, or the input
    * ran out, or the separator came, and it is consumed. */
  lemma PullStops(words: seq<string>, next: nat, sep: string, count: nat, taken: seq<string>)
    requires next <= |words| && (count == 0 || next == |words| || words[next] == sep)
    ensures Behind(taken, Pull(words[next..], sep, count)) ==
      (taken, |taken| + (if count == 0 || next == |words| then 0 else 1), count == 0)
  {
    assert taken + [] == taken;
    if count > 0 && next < |words| {
      assert words[next..][0] == words[next];
    }
  }

  /** `parseCommand`: the command registered under the kind and name, with
    * the arguments pulled for it; gives the command and the number of
    * words consumed after the name. */
  function ParseCommandSpec(reg: Registry, kindWord: string, name: string, rest: seq<string>)
    : (r: Result<(Command, nat), Error>)
    ensures r.Ok? ==> r.value.1 <= |rest|
  {
    var kind := ParseCommandType(kindWord);
    match GetByName(reg, kind, name)
    case None => Err(UnknownCommand(kindWord, name))
    case Some(w) =>
      var (args, used, _) := Pull(rest, CommandSeparator, w.maxIn);
      match ValidateArgCount(w, |args|)
      case Some(e) => Err(e)
      case None => Ok((Command(kind, name, args), used))
  }

  /** One clause of `Parse`, on tokens that do not start with a separator:
    * `set NAME` and `query NAME` name their command, any other word is the
    * name of an action. Gives the command and the number of tokens it
    * takes. */
  function Clause(reg: Registry, toks: seq<string>): (r: Result<(Command, nat), Error>)
    requires toks != [] && toks[0] != CommandSeparator
    ensures r.Ok? ==> 1 <= r.value.1 <= |toks|
  {
    var named := toks[0] == "set" || toks[0] == "query";
    if named && (|toks| == 1 || toks[1] == CommandSeparator) then Err(TooFewArguments(toks[0]))
    else
      var skip := if named then 2 else 1;
      var kindWord := if named then toks[0] else "action";
      var name := if named then toks[1] else toks[0];
      var spec := ParseCommandSpec(reg, kindWord, name, toks[skip..]);
      if spec.Err? then Err(spec.error) else Ok((spec.value.0, skip + spec.value.1))
  }

  /** `Parse` over the resplit words: separators between clauses are
    * skipped and the first error ends the parse. */
  function ParseTokens(reg: Registry, toks: seq<string>): Result<seq<Command>, Error>
    decreases |toks|
  {
    if toks == [] then Ok([])
    else if toks[0] == CommandSeparator then ParseTokens(reg, toks[1..])
    else
      var clause := Clause(reg, toks);
      if clause.Err? then Err(clause.error)
      else Prefixed([clause.value.0], ParseTokens(reg, toks[clause.value.1..]))
  }

  /** The commands a parse gives. */
  function Parsed(reg: Registry, words: seq<string>): Result<seq<Command>, Error>
  {
    ParseTokens(reg, Resplit(words, Separator))
  }

  /** `parseCommand`, pulling the arguments from position `pos`. */
  method ParseCommand(reg: Registry, kindWord: string, name: string, toks: seq<string>, pos: nat)
    returns (r: Result<(Command, nat), Error>)
    requires pos <= |toks|
    ensures r == ParseCommandSpec(reg, kindWord, name, toks[pos..])
  {
    var kind := ParseCommandType(kindWord);
    var found := GetByName(reg, kind, name);
    if found.None? {
      return Err(UnknownCommand(kindWord, name));
    }
    var w := found.value;
    var args, next, _ := PullUntilSepOrN(toks, pos, CommandSeparator, w.maxIn);
    var err := ValidateArgCount(w, |args|);
    if err.Some? {
      return Err(err.value);
    }
    return Ok((Command(kind, name, args), next - pos));
  }

  /** The commands parsed so far, put before the outcome of the rest. */
  function Prefixed(done: seq<Command>, r: Result<seq<Command>, Error>): Result<seq<Command>, Error>
  {
    match r
    case Err(e) => Err(e)
    case Ok(cs) => Ok(done + cs)
  }

  /** A separator where a clause would start is skipped. */
  lemma ParseAtSeparator(reg: Registry, toks: seq<string>, start: nat)
    requires start < |toks| && toks[start] == CommandSeparator
    ensures ParseTokens(reg, toks[start..]) == ParseTokens(reg, toks[start + 1..])
  {
    assert toks[start..][1..] == toks[start + 1..];
  }

  /** A clause at `start`, followed by the parse of what it leaves. */
  lemma ParseAtClause(reg: Registry, toks: seq<string>, start: nat)
    requires start < |toks| && toks[start] != CommandSeparator
    ensures Clause(reg, toks[start..]).Err? ==>
      ParseTokens(reg, toks[start..]) == Err(Clause(reg, toks[start..]).error)
    ensures Clause(reg, toks[start..]).Ok? ==>
      var (c, n) := Clause(reg, toks[start..]).value;
      ParseTokens(reg, toks[start..]) == Prefixed([c], ParseTokens(reg, toks[start + n..]))
  {
    var t := toks[start..];
    assert t != [] && t[0] == toks[start];
    var r := Clause(reg, t);
    if r.Ok? {
      var (c, n) := r.value;
      assert ParseTokens(reg, t) == Prefixed([c], ParseTokens(reg, t[n..]));
      assert t[n..] == toks[start + n..];
    }
  }

  /** `set` or `query` at the end of input or before a separator. */
  lemma ClauseNameMissing(reg: Registry, toks: seq<string>, start: nat)
    requires start < |toks| && (toks[start] == "set" || toks[start] == "query")
    requires start + 1 == |toks| || toks[start + 1] == CommandSeparator
    ensures Clause(reg, toks[start..]) == Err(TooFewArguments(toks[start]))
  {
    var t := toks[start..];
    assert t[0] == toks[start];
    if start + 1 < |toks| {
      assert t[1] == toks[start + 1];
    }
  }

  /** A clause at `start` whose arguments start at `pos`. */
  lemma ClauseAt(reg: Registry, toks: seq<string>, start: nat, pos: nat, kindWord: string, name: string)
    requires start < pos <= |toks| && toks[start] != CommandSeparator
    requires toks[start] == "set" || toks[start] == "query" ==>
      pos == start + 2 && toks[start + 1] != CommandSeparator && kindWord == toks[start] && name == toks[start + 1]
    requires !(toks[start] == "set" || toks[start] == "query") ==>
      pos == start + 1 && kindWord == "action" && name == toks[start]
    ensures ParseCommandSpec(reg, kindWord, name, toks[pos..]).Err? ==>
      Clause(reg, toks[start..]) == Err(ParseCommandSpec(reg, kindWord, name, toks[pos..]).error)
    ensures ParseCommandSpec(reg, kindWord, name, toks[pos..]).Ok? ==>
      var spec := ParseCommandSpec(reg, kindWord, name, toks[pos..]).value;
      Clause(reg, toks[start..]) == Ok((spec.0, pos - start + spec.1))
  {
    var t := toks[start..];
    assert t[0] == toks[start] && t[pos - start..] == toks[pos..];
    if pos == start + 2 {
      assert t[1] == toks[start + 1];
    }
  }

  /** `Parse`'s loop invariant survives a skipped separator. */
  lemma SkipSeparator(reg: Registry, toks: seq<string>, done: seq<Command>, pos: nat)
    requires pos < |toks| && toks[pos] == CommandSeparator
    requires ParseTokens(reg, toks) == Prefixed(done, ParseTokens(reg, toks[pos..]))
    ensures ParseTokens(reg, toks) == Prefixed(done, ParseTokens(reg, toks[pos + 1..]))
  {
    ParseAtSeparator(reg, toks, pos);
  }

  /** A clause read from `pos` to `next`, then the parse from `next`. */
  lemma ClauseThen(reg: Registry, toks: seq<string>, pos: nat, c: Command, next: nat)
    requires pos < next <= |toks| && toks[pos] != CommandSeparator
    requires Clause(reg, toks[pos..]) == Ok((c, next - pos))
    ensures ParseTokens(reg, toks[pos..]) == Prefixed([c], ParseTokens(reg, toks[next..]))
  {
    var t := toks[pos..];
    assert t != [] && t[0] == toks[pos];
    assert ParseTokens(reg, t) == Prefixed([c], ParseTokens(reg, t[next - pos..]));
    assert t[next - pos..] == toks[next..];
  }

  /** `Parse`'s loop invariant survives a clause read from `pos` to `next`. */
  lemma TakeClause(reg: Registry, toks: seq<string>, done: seq<Command>, pos: nat, c: Command, next: nat)
    requires pos < next <= |toks| && toks[pos] != CommandSeparator
    requires Clause(reg, toks[pos..]) == Ok((c, next - pos))
    requires ParseTokens(reg, toks) == Prefixed(done, ParseTokens(reg, toks[pos..]))
    ensures ParseTokens(reg, toks) == Prefixed(done + [c], ParseTokens(reg, toks[next..]))
  {
    ClauseThen(reg, toks, pos, c, next);
    PrefixedTwice(done, c, ParseTokens(reg, toks[next..]));
  }

  /** A clause that fails ends the parse with its error. */
  lemma ClauseFails(reg: Registry, toks: seq<string>, done: seq<Command>, pos: nat)
    requires pos < |toks| && toks[pos] != CommandSeparator
    requires Clause(reg, toks[pos..]).Err?
    requires ParseTokens(reg, toks) == Prefixed(done, ParseTokens(reg, toks[pos..]))
    ensures ParseTokens(reg, toks) == Err(Clause(reg, toks[pos..]).error)
  {
    ParseAtClause(reg, toks, pos);
  }

  /** Nothing parsed yet. */
  lemma PrefixedNothing(r: Result<seq<Command>, Error>)
    ensures Prefixed([], r) == r
  {
    if r.Ok? {
      assert [] + r.value == r.value;
    }
  }

  /** Nothing left to parse. */
  lemma PrefixedEmpty(done: seq<Command>)
    ensures Prefixed(done, Ok([])) == Ok(done)
  {
    assert done + [] == done;
  }

  /** Putting `done` and then `c` before an outcome. */
  lemma PrefixedTwice(done: seq<Command>, c: Command, r: Result<seq<Command>, Error>)
    ensures Prefixed(done, Prefixed([c], r)) == Prefixed(done + [c], r)
  {
    if r.Ok? {
      assert done + ([c] + r.value) == (done + [c]) + r.value;
    }
  }

  /** The body of `Parse`'s loop for a token that is not a separator:
    * `set` and `query` pull a name first, then `parseCommand` pulls the
    * arguments. Gives the command and the position after it. */
  method ReadClause(reg: Registry, toks: seq<string>, start: nat) returns (r: Result<(Command, nat), Error>)
    requires start < |toks| && toks[start] != CommandSeparator
    ensures r.Err? <==> Clause(reg, toks[start..]).Err?
    ensures r.Err? ==> r.error == Clause(reg, toks[start..]).error
    ensures r.Ok? ==> start < r.value.1 && Clause(reg, toks[start..]) == Ok((r.value.0, r.value.1 - start))
  {
    var token := toks[start];
    var pos := start + 1;
    var kindWord := "action";
    var name := token;
    if token == "set" || token == "query" {
      if pos == |toks| || toks[pos] == CommandSeparator {
        ClauseNameMissing(reg, toks, start);
        return Err(TooFewArguments(token));
      }
      kindWord := token;
      name := toks[pos];
      pos := pos + 1;
    }
    ClauseAt(reg, toks, start, pos, kindWord, name);
    var parsed := ParseCommand(reg, kindWord, name, toks, pos);
    if parsed.Err? {
      return Err(parsed.error);
    }
    var (cmd, used) := parsed.value;
    return Ok((cmd, pos + used));
  }

  /** `Parse`: the loop over the token iterator, appending one command per
    * clause. */
  method Parse(reg: Registry, words: seq<string>) returns (r: Result<seq<Command>, Error>)
    ensures r == Parsed(reg, words)
  {
    var toks := Resplit(words, Separator);
    r := ParseClauses(reg, toks);
  }

  /** The loop of `Parse` over the resplit tokens. */
  method ParseClauses(reg: Registry, toks: seq<string>) returns (r: Result<seq<Command>, Error>)
    ensures r == ParseTokens(reg, toks)
  {
    var pos := 0;
    var commands: seq<Command> := [];
    PrefixedNothing(ParseTokens(reg, toks));
    assert toks[pos..] == toks;
    while pos < |toks|
      invariant 0 <= pos <= |toks|
      invariant ParseTokens(reg, toks) == Prefixed(commands, ParseTokens(reg, toks[pos..]))
      decreases |toks| - pos
    {
      if toks[pos] == CommandSeparator {
        SkipSeparator(reg, toks, commands, pos);
        pos := pos + 1;
        continue;
      }
      var clause := ReadClause(reg, toks, pos);
      if clause.Err? {
        ClauseFails(reg, toks, commands, pos);
        return Err(clause.error);
      }
      TakeClause(reg, toks, commands, pos, clause.value.0, clause.value.1);
      commands := commands + [clause.value.0];
      pos := clause.value.1;
    }
    assert toks[pos..] == [];
    PrefixedEmpty(commands);
    return Ok(commands);
  }

  /** What every parsed command satisfies: one of the three kinds the
    * grammar spells, a name that is registered under that kind and is not
    * the separator, and an argument count inside the registered bounds,
    * with no separator among the arguments. */
  predicate WellFormed(reg: Registry, c: Command)
  {
    && (c.kind == ActionType || c.kind == SetType || c.kind == QueryType)
    && c.name != CommandSeparator
    && CommandSeparator !in c.args
    && GetByName(reg, c.kind, c.name).Some?
    && ValidateArgCount(GetByName(reg, c.kind, c.name).value, |c.args|) == None
  }

  /** A clause that succeeds gives a well-formed command. */
  lemma ClauseWellFormed(reg: Registry, toks: seq<string>)
    requires toks != [] && toks[0] != CommandSeparator
    requires Clause(reg, toks).Ok?
    ensures WellFormed(reg, Clause(reg, toks).value.0)
  {
    KindWords();
    var named := toks[0] == "set" || toks[0] == "query";
    var skip := if named then 2 else 1;
    var (kindWord, name) := if named then (toks[0], toks[1]) else ("action", toks[0]);
    var w := GetByName(reg, ParseCommandType(kindWord), name).value;
    PullTakesFront(toks[skip..], CommandSeparator, w.maxIn);
  }

  /** Every command of a successful parse is well formed, and there are no
    * more commands than tokens. */
  lemma {:induction false} ParsedWellFormed(reg: Registry, toks: seq<string>)
    requires ParseTokens(reg, toks).Ok?
    ensures |ParseTokens(reg, toks).value| <= |toks|
    ensures forall c :: c in ParseTokens(reg, toks).value ==> WellFormed(reg, c)
    decreases |toks|
  {
    if toks == [] {
    } else if toks[0] == CommandSeparator {
      ParsedWellFormed(reg, toks[1..]);
    } else {
      var (c, n) := Clause(reg, toks).value;
      ClauseWellFormed(reg, toks);
      ParsedWellFormed(reg, toks[n..]);
    }
  }

  /** The words a command is written as: `set NAME`, `query NAME` or the
    * action's name, then its arguments and a separator. */
  function Head(c: Command): seq<string>
  {
    if c.kind == SetType then ["set", c.name]
    else if c.kind == QueryType then ["query", c.name]
    else [c.name]
  }

  function RenderOne(c: Command): (r: seq<string>)
    ensures |r| >= 1
  {
    Head(c) + c.args + [CommandSeparator]
  }

  /** The command line of a sequence of commands. */
  function Render(cmds: seq<Command>): seq<string>
  {
    if cmds == [] then [] else RenderOne(cmds[0]) + Render(cmds[1..])
  }

  /** A command the grammar can write: well formed, an action not named like
    * a kind word, and every word free of the separator character. */
  predicate Renderable(reg: Registry, c: Command)
  {
    && WellFormed(reg, c)
    && (c.kind == ActionType ==> c.name != "set" && c.name != "query")
    && IsToken(c.name, Separator)
    && forall a :: a in c.args ==> IsToken(a, Separator)
  }

  /** Pulling from arguments written before a separator gives them back;
    * the separator is consumed unless the count was reached first. */
  lemma {:induction false} PullRendered(args: seq<string>, rest: seq<string>, sep: string, count: nat)
    requires |args| <= count && sep !in args
    ensures Pull(args + [sep] + rest, sep, count).0 == args
    ensures Pull(args + [sep] + rest, sep, count).1 == |args| + 1
         || (|args| == count && Pull(args + [sep] + rest, sep, count).1 == |args|)
    decreases count
  {
    var w := args + [sep] + rest;
    if args == [] {
      assert w[0] == sep;
    } else {
      assert w[0] == args[0] && w[1..] == args[1..] + [sep] + rest;
      PullRendered(args[1..], rest, sep, count - 1);
      assert [args[0]] + args[1..] == args;
    }
  }

  /** `parseCommand` on the arguments of a well-formed command, written
    * before a separator. */
  lemma SpecOfRendered(reg: Registry, c: Command, kindWord: string, rest: seq<string>)
    requires WellFormed(reg, c) && ParseCommandType(kindWord) == c.kind
    ensures var r := ParseCommandSpec(reg, kindWord, c.name, c.args + [CommandSeparator] + rest);
      r.Ok? && r.value.0 == c && (r.value.1 == |c.args| + 1 || r.value.1 == |c.args|)
  {
    var w := GetByName(reg, c.kind, c.name).value;
    PullRendered(c.args, rest, CommandSeparator, w.maxIn);
  }

  /** Dropping a prefix. */
  lemma DropPrefix<T>(a: seq<T>, b: seq<T>)
    ensures (a + b)[|a|..] == b
  {
  }

  /** Where the parts of written words start. */
  lemma RenderedParts(h: seq<string>, args: seq<string>, rest: seq<string>, sep: string)
    requires h != []
    ensures var t := h + args + [sep] + rest;
      && t[0] == h[0] && (|h| >= 2 ==> t[1] == h[1])
      && t[|h|..] == args + [sep] + rest
      && t[|h| + |args|..] == [sep] + rest
      && t[|h| + |args| + 1..] == rest
  {
    var t := h + args + [sep] + rest;
    assert t == h + (args + [sep] + rest);
    DropPrefix(h, args + [sep] + rest);
    assert t == (h + args) + ([sep] + rest);
    DropPrefix(h + args, [sep] + rest);
    assert t == (h + args + [sep]) + rest;
    DropPrefix(h + args + [sep], rest);
  }

  /** The words of a command, read as a clause. */
  lemma RenderedClause(reg: Registry, c: Command, rest: seq<string>)
    requires Renderable(reg, c)
    ensures var t := RenderOne(c) + rest;
      && t != [] && t[0] != CommandSeparator
      && Clause(reg, t).Ok? && Clause(reg, t).value.0 == c
      && (t[Clause(reg, t).value.1..] == rest
          || t[Clause(reg, t).value.1..] == [CommandSeparator] + rest)
  {
    KindWords();
    var h := Head(c);
    var t := RenderOne(c) + rest;
    var kindWord := if c.kind == SetType then "set" else if c.kind == QueryType then "query" else "action";
    RenderedParts(h, c.args, rest, CommandSeparator);
    assert t == h + c.args + [CommandSeparator] + rest;
    ClauseAt(reg, t, 0, |h|, kindWord, c.name);
    assert t[0..] == t;
    SpecOfRendered(reg, c, kindWord, rest);
  }

  /** A written command parses back to itself, before whatever follows. */
  lemma ParseRenderedOne(reg: Registry, c: Command, rest: seq<string>)
    requires Renderable(reg, c)
    ensures ParseTokens(reg, RenderOne(c) + rest) == Prefixed([c], ParseTokens(reg, rest))
  {
    var t := RenderOne(c) + rest;
    RenderedClause(reg, c, rest);
    var n := Clause(reg, t).value.1;
    assert ParseTokens(reg, t) == Prefixed([c], ParseTokens(reg, t[n..]));
    if t[n..] != rest {
      var s := t[n..];
      assert s != [] && s[0] == CommandSeparator && s[1..] == rest;
    }
  }

  /** Parsing the command line of well-formed commands gives them back. */
  lemma {:induction false} ParseRendered(reg: Registry, cmds: seq<Command>)
    requires forall c :: c in cmds ==> Renderable(reg, c)
    ensures ParseTokens(reg, Render(cmds)) == Ok(cmds)
  {
    if cmds != [] {
      ParseRendered(reg, cmds[1..]);
      ParseRenderedOne(reg, cmds[0], Render(cmds[1..]));
      assert [cmds[0]] + cmds[1..] == cmds;
    }
  }

  /** Every word of a written command line is a token. */
  lemma {:induction false} RenderedTokens(reg: Registry, cmds: seq<Command>)
    requires forall c :: c in cmds ==> Renderable(reg, c)
    ensures forall t :: t in Render(cmds) ==> IsToken(t, Separator)
  {
    if cmds != [] {
      RenderedTokens(reg, cmds[1..]);
      var c := cmds[0];
      assert c in cmds;
      forall t | t in RenderOne(c)
        ensures IsToken(t, Separator)
      {
        if t in Head(c) {
          assert t == "set" || t == "query" || t == c.name;
        }
      }
    }
  }

  /** The round trip through `Parse`: the command line of well-formed
    * commands, given as words, parses back to the commands. */
  lemma RenderThenParse(reg: Registry, cmds: seq<Command>)
    requires forall c :: c in cmds ==> Renderable(reg, c)
    ensures Parsed(reg, Render(cmds)) == Ok(cmds)
  {
    RenderedTokens(reg, cmds);
    ResplitOfTokens(Render(cmds), Separator);
    ParseRendered(reg, cmds);
  }

  /** A word that is not a separator or a kind word names an action; an
    * unregistered one ends the parse. */
  lemma UnknownActionFails(reg: Registry, toks: seq<string>)
    requires toks != [] && toks[0] != CommandSeparator && toks[0] != "set" && toks[0] != "query"
    requires toks[0] !in reg.actions
    ensures ParseTokens(reg, toks) == Err(UnknownCommand("action", toks[0]))
  {
    KindWords();
  }

  /** `for` is not a word of the grammar: it is read as the name of an
    * action, and no action is registered under it. */
  lemma ForIsAnAction(rest: seq<string>)
    ensures ParseTokens(InitCommands(), ["for"] + rest) == Err(UnknownCommand("action", "for"))
  {
    ForUnregistered();
    UnknownActionFails(InitCommands(), ["for"] + rest);
  }

  /** No action of `InitCommands` is called `for`. */
  lemma ForUnregistered()
    ensures "for" !in InitCommands().actions
  {
    assert "for" !in KeybindActions;
    assert "for" != StartSequenceName && "for" != "swap";
  }

  /** So `for window 5` does not parse. */
  lemma ForWindowFails()
    ensures Parsed(InitCommands(), ["for", "window", "5"]) == Err(UnknownCommand("action", "for"))
  {
    var words := ["for", "window", "5"];
    assert forall t :: t in words ==> IsToken(t, Separator);
    ResplitOfTokens(words, Separator);
    assert words == ["for"] + ["window", "5"];
    ForIsAnAction(["window", "5"]);
  }
}
