/** ParsingUtils: parsing of function-call strings such as
    `give("sword", "Rin")`. A scanner first masks the commas that separate
    arguments with '$' (commas inside "…" are kept), then the call is cut at
    '(' and the quoted arguments are collected. A second scanner masks the
    commas that separate calls in a list of calls instead. */
module ParsingUtils {
  import opened Wrappers
  import opened Text

  /** `COMMA_SUB`: the character a separating comma is replaced with. */
  const CommaSub: char := '$'

  /** Which commas a scan masks: those inside parentheses (the arguments of
      one call) or those outside them (the calls of a list). */
  datatype Mode = InsideParens | OutsideParens

  datatype ScanState = ScanState(inParen: bool, inQuote: bool)

  datatype Scanned = Scanned(out: string, end: ScanState)

  predicate Masks(mode: Mode, st: ScanState)
  {
    !st.inQuote && (if mode == InsideParens then st.inParen else !st.inParen)
  }

  /** The scanner state after reading one more character. A '(' opens and a
      ')' closes (parentheses do not nest); a '"' toggles the quote. */
  function Next(st: ScanState, c: char): ScanState
  {
    if c == '(' then st.(inParen := true)
    else if c == ')' then st.(inParen := false)
    else if c == '"' then st.(inQuote := !st.inQuote)
    else st
  }

  function Emit(mode: Mode, st: ScanState, c: char): char
  {
    if c == ',' && Masks(mode, st) then CommaSub else c
  }

  /** The scan from state st over s: the rewritten text and the state it
      ends in. */
  function Scan(s: string, mode: Mode, st: ScanState): (r: Scanned)
    ensures |r.out| == |s|
  {
    if s == [] then Scanned([], st)
    else
      var rest := Scan(s[1..], mode, Next(st, s[0]));
      Scanned([Emit(mode, st, s[0])] + rest.out, rest.end)
  }

  const Start := ScanState(false, false)

  /** A '(' before position i with no ')' after it and before i. */
  ghost predicate ParenOpen(s: string, i: nat)
    requires i <= |s|
  {
    exists j :: 0 <= j < i && s[j] == '(' && forall k :: j < k < i ==> s[k] != ')'
  }

  /** An odd number of '"' before position i. */
  ghost predicate QuoteOpen(s: string, i: nat)
    requires i <= |s|
  {
    Count(s[..i], '"') % 2 == 1
  }

  /** The comma-masking scan shared by `ConvertFunctionString` and
      `ConvertFunctionListString`: the output has the input's length, every
      character but a comma is kept, and a comma becomes '$' exactly when
      the parenthesis and quote state before it call for it. */
  method ConvertCommas(fstr: string, mode: Mode) returns (r: string)
    ensures r == Scan(fstr, mode, Start).out
    ensures |r| == |fstr|
    ensures forall i :: 0 <= i < |fstr| ==>
      r[i] == if fstr[i] == ',' && Masks(mode, ScanState(ParenOpen(fstr, i), QuoteOpen(fstr, i)))
              then CommaSub else fstr[i]
  {
    var inParen := false;
    var inQuote := false;
    r := "";
    var i := 0;
    while i < |fstr|
      invariant 0 <= i <= |fstr|
      invariant r == Scan(fstr[..i], mode, Start).out
      invariant ScanState(inParen, inQuote) == Scan(fstr[..i], mode, Start).end
    {
      var c := fstr[i];
      ScanConcat(fstr[..i], [c], mode, Start);
      assert fstr[..i + 1] == fstr[..i] + [c];
      var out := c;
      if c == '(' {
        inParen := true;
      } else if c == ')' {
        inParen := false;
      } else if c == '"' {
        inQuote := !inQuote;
      } else if c == ',' && (if mode == InsideParens then inParen else !inParen) && !inQuote {
        out := CommaSub;
      }
      r := r + [out];
      i := i + 1;
    }
    assert fstr[..i] == fstr;
    ScanMeaning(fstr, mode);
  }

  /** Character i of the scan is emitted in the state the scan of the
      first i characters ends in. */
  lemma ScanAt(s: string, mode: Mode, i: nat)
    requires i < |s|
    ensures Scan(s, mode, Start).out[i] == Emit(mode, Scan(s[..i], mode, Start).end, s[i])
  {
    assert s == s[..i] + s[i..];
    ScanConcat(s[..i], s[i..], mode, Start);
  }

  /** The scan state after i characters: a '(' is open and not yet closed,
      and an odd number of quotes has been read. */
  lemma {:induction false} StateAt(s: string, mode: Mode, i: nat)
    requires i <= |s|
    ensures Scan(s[..i], mode, Start).end == ScanState(ParenOpen(s, i), QuoteOpen(s, i))
  {
    if i > 0 {
      StateAt(s, mode, i - 1);
      assert s[..i] == s[..i - 1] + [s[i - 1]];
      ScanConcat(s[..i - 1], [s[i - 1]], mode, Start);
      ParenOpenStep(s, i - 1);
      QuoteOpenStep(s, i - 1);
    }
  }

  /** The meaning of the scan, position by position. */
  lemma ScanMeaning(s: string, mode: Mode)
    ensures forall i :: 0 <= i < |s| ==>
      Scan(s, mode, Start).out[i] == if s[i] == ',' && Masks(mode, ScanState(ParenOpen(s, i), QuoteOpen(s, i)))
                                     then CommaSub else s[i]
  {
    forall i | 0 <= i < |s|
      ensures Scan(s, mode, Start).out[i] == if s[i] == ',' && Masks(mode, ScanState(ParenOpen(s, i), QuoteOpen(s, i)))
                                             then CommaSub else s[i]
    {
      ScanAt(s, mode, i);
      StateAt(s, mode, i);
    }
  }

  lemma ParenOpenStep(s: string, i: nat)
    requires i < |s|
    ensures s[i] == '(' ==> ParenOpen(s, i + 1)
    ensures s[i] == ')' ==> !ParenOpen(s, i + 1)
    ensures s[i] != '(' && s[i] != ')' ==> (ParenOpen(s, i + 1) <==> ParenOpen(s, i))
  {
    if s[i] == ')' {
      forall j | 0 <= j < i + 1 && s[j] == '(' ensures exists k :: j < k < i + 1 && s[k] == ')' {
        assert j < i && s[i] == ')';
      }
    }
    if s[i] != '(' && s[i] != ')' {
      if ParenOpen(s, i + 1) {
        var j :| 0 <= j < i + 1 && s[j] == '(' && forall k :: j < k < i + 1 ==> s[k] != ')';
        assert j < i;
      }
      if ParenOpen(s, i) {
        var j :| 0 <= j < i && s[j] == '(' && forall k :: j < k < i ==> s[k] != ')';
        assert forall k :: j < k < i + 1 ==> s[k] != ')';
      }
    }
  }

  lemma QuoteOpenStep(s: string, i: nat)
    requires i < |s|
    ensures QuoteOpen(s, i + 1) <==> (if s[i] == '"' then !QuoteOpen(s, i) else QuoteOpen(s, i))
  {
    assert s[..i + 1][..i] == s[..i];
  }

  /** `ConvertFunctionString`: masks the commas between the arguments of a
      call, i.e. those after an open '(' and outside quotes. */
  method ConvertFunctionString(fstr: string) returns (r: string)
    ensures r == Scan(fstr, InsideParens, Start).out
    ensures |r| == |fstr|
    ensures forall i :: 0 <= i < |fstr| ==>
      r[i] == if fstr[i] == ',' && ParenOpen(fstr, i) && !QuoteOpen(fstr, i) then CommaSub else fstr[i]
  {
    r := ConvertCommas(fstr, InsideParens);
  }

  /** `ConvertFunctionListString`: masks the commas between the calls of a
      list, i.e. those outside parentheses and outside quotes. */
  method ConvertFunctionListString(fstr: string) returns (r: string)
    ensures r == Scan(fstr, OutsideParens, Start).out
    ensures |r| == |fstr|
    ensures forall i :: 0 <= i < |fstr| ==>
      r[i] == if fstr[i] == ',' && !ParenOpen(fstr, i) && !QuoteOpen(fstr, i) then CommaSub else fstr[i]
  {
    r := ConvertCommas(fstr, OutsideParens);
  }

  /** The arguments kept by `ParseFunction`: each token is trimmed, and a
      token starting with '"' loses its first and last characters; other
      tokens are dropped. A lone '"' makes `Substring` throw. */
  function QuotedArgs(tokens: seq<string>): (r: Result<seq<string>, string>)
    ensures r.Success? ==> |r.value| <= |tokens|
  {
    if tokens == [] then Success([])
    else
      var t := Trim(tokens[0]);
      var rest := QuotedArgs(tokens[1..]);
      if rest.Failure? then rest
      else if StartsWith(t, "\"") then
        if |t| < 2 then Failure("Substring: length out of range")
        else Success([t[1..|t| - 1]] + rest.value)
      else rest
  }

  /** `ParseFunction`: the call's name followed by its quoted arguments,
      read from the masked string. */
  function ParseFunction(fstr: string): (r: Result<seq<string>, string>)
    ensures r.Success? ==> |r.value| >= 1
    ensures r.Success? ==> r.value[0] == Trim(Split(Trim(Scan(fstr, InsideParens, Start).out), '(')[0])
  {
    ParseMasked(Scan(fstr, InsideParens, Start).out)
  }

  /** The parse proper, on the masked string f. The name is the trimmed
      text before the first '(' of the trimmed f; the argument text is what
      follows the name in f (untrimmed), less its first and last characters,
      split at '$'. */
  function ParseMasked(f: string): (r: Result<seq<string>, string>)
    ensures r.Success? ==> |r.value| >= 1
    ensures r.Success? ==> r.value[0] == Trim(Trim(f)[..IndexOf(Trim(f), '(')])
    ensures r.Success? ==> r.value[0] == Trim(Split(Trim(f), '(')[0])
  {
    var tokens := Split(Trim(f), '(');
    SplitFirst(Trim(f), '(');
    var fname := Trim(tokens[0]);
    if |f| - |fname| < 2 then Failure("Substring: length out of range")
    else
      var argstr := f[|fname|..];
      var args := QuotedArgs(Split(argstr[1..|argstr| - 1], CommaSub));
      if args.Failure? then args
      else Success([fname] + args.value)
  }

  // ---------------------------------------------------------------------
  // The round trip: a call written out with quoted arguments parses back.

  function Quote(a: string): string
  {
    "\"" + a + "\""
  }

  function QuoteAll(args: seq<string>): (r: seq<string>)
    ensures |r| == |args| && forall i :: 0 <= i < |args| ==> r[i] == Quote(args[i])
  {
    if args == [] then [] else [Quote(args[0])] + QuoteAll(args[1..])
  }

  /** `name("a1","a2",…)`. */
  function Encode(name: string, args: seq<string>): string
  {
    name + "(" + Join(QuoteAll(args), ',') + ")"
  }

  /** A name the parser can read back: no parenthesis or quote, and no
      whitespace at either end. */
  predicate ValidName(name: string)
  {
    '(' !in name && ')' !in name && '"' !in name && (name != [] ==> !IsWhiteSpace(name[0]) && !IsWhiteSpace(name[|name| - 1]))
  }

  /** An argument the parser can read back: no quote, no parenthesis and no
      '$' (commas and spaces are fine inside the quotes). */
  predicate ValidArg(a: string)
  {
    '"' !in a && '(' !in a && ')' !in a && CommaSub !in a
  }

  lemma {:induction false} ScanConcat(a: string, b: string, mode: Mode, st: ScanState)
    ensures Scan(a + b, mode, st).out == Scan(a, mode, st).out + Scan(b, mode, Scan(a, mode, st).end).out
    ensures Scan(a + b, mode, st).end == Scan(b, mode, Scan(a, mode, st).end).end
    decreases |a|
  {
    if a == [] {
      assert a + b == b;
    } else {
      assert (a + b)[0] == a[0] && (a + b)[1..] == a[1..] + b;
      ScanConcat(a[1..], b, mode, Next(st, a[0]));
    }
  }

  /** A token that starts with '"' is kept without its first and last
      characters. */
  lemma QuotedArgsKeep(t: string, rest: seq<string>, r: seq<string>)
    requires Trim(t) == t && StartsWith(t, "\"") && |t| >= 2 && QuotedArgs(rest) == Success(r)
    ensures QuotedArgs([t] + rest) == Success([t[1..|t| - 1]] + r)
  {
    assert ([t] + rest)[1..] == rest;
  }

  /** A token that does not start with '"' is dropped. */
  lemma QuotedArgsSkip(t: string, rest: seq<string>, r: seq<string>)
    requires Trim(t) == t && !StartsWith(t, "\"") && QuotedArgs(rest) == Success(r)
    ensures QuotedArgs([t] + rest) == Success(r)
  {
    assert ([t] + rest)[1..] == rest;
  }

  /** Text without parentheses or quotes, scanned in a state that masks no
      comma, comes out unchanged and leaves the state as it was. */
  lemma {:induction false} ScanPlain(s: string, mode: Mode, st: ScanState)
    requires '(' !in s && ')' !in s && '"' !in s && !Masks(mode, st)
    ensures Scan(s, mode, st) == Scanned(s, st)
    decreases |s|
  {
    if s != [] {
      assert s[0] in s;
      assert forall c :: c in s[1..] ==> c in s;
      ScanPlain(s[1..], mode, st);
    }
  }

  lemma ScanQuoted(a: string)
    requires ValidArg(a)
    ensures Scan(Quote(a), InsideParens, ScanState(true, false)) == Scanned(Quote(a), ScanState(true, false))
  {
    var st := ScanState(true, false);
    ScanConcat("\"", a + "\"", InsideParens, st);
    ScanConcat(a, "\"", InsideParens, ScanState(true, true));
    ScanPlain(a, InsideParens, ScanState(true, true));
    assert Quote(a) == "\"" + (a + "\"");
  }

  /** Inside the parentheses, the commas between quoted arguments become
      '$' and nothing else changes. */
  lemma {:induction false} ScanArgs(args: seq<string>)
    requires forall i :: 0 <= i < |args| ==> ValidArg(args[i])
    ensures Scan(Join(QuoteAll(args), ','), InsideParens, ScanState(true, false))
         == Scanned(Join(QuoteAll(args), CommaSub), ScanState(true, false))
    decreases |args|
  {
    var st := ScanState(true, false);
    if |args| == 1 {
      ScanQuoted(args[0]);
    } else if |args| > 1 {
      var q := QuoteAll(args);
      var rest, restMasked := Join(q[1..], ','), Join(q[1..], CommaSub);
      assert QuoteAll(args[1..]) == q[1..];
      ScanQuoted(args[0]);
      ScanArgs(args[1..]);
      assert Scan([','], InsideParens, st) == Scanned([CommaSub], st);
      ScanThen(q[0], [','], InsideParens, st, Scanned(q[0], st), Scanned([CommaSub], st));
      ScanThen(q[0] + [','], rest, InsideParens, st, Scanned(q[0] + [CommaSub], st), Scanned(restMasked, st));
    }
  }

  /** Scanning two pieces one after the other. */
  lemma ScanThen(a: string, b: string, mode: Mode, st: ScanState, ra: Scanned, rb: Scanned)
    requires Scan(a, mode, st) == ra && Scan(b, mode, ra.end) == rb
    ensures Scan(a + b, mode, st) == Scanned(ra.out + rb.out, rb.end)
  {
    ScanConcat(a, b, mode, st);
  }

  /** A call whose argument text scans (inside the parentheses) to jm
      scans to its name, '(', jm and ')'. */
  lemma ScanCall(name: string, j: string, jm: string)
    requires ValidName(name)
    requires Scan(j, InsideParens, ScanState(true, false)) == Scanned(jm, ScanState(true, false))
    ensures Scan(name + "(" + j + ")", InsideParens, Start).out == name + "(" + jm + ")"
  {
    var open := ScanState(true, false);
    ScanPlain(name, InsideParens, Start);
    ScanThen(name, "(", InsideParens, Start, Scanned(name, Start), Scanned("(", open));
    ScanThen(name + "(", j, InsideParens, Start, Scanned(name + "(", open), Scanned(jm, open));
    ScanThen(name + "(" + j, ")", InsideParens, Start, Scanned(name + "(" + jm, open), Scanned(")", ScanState(false, false)));
  }

  /** The masking scan of an encoded call. */
  lemma ScanEncoded(name: string, args: seq<string>)
    requires ValidName(name) && forall i :: 0 <= i < |args| ==> ValidArg(args[i])
    ensures Scan(Encode(name, args), InsideParens, Start).out
         == name + "(" + Join(QuoteAll(args), CommaSub) + ")"
  {
    ScanArgs(args);
    ScanCall(name, Join(QuoteAll(args), ','), Join(QuoteAll(args), CommaSub));
  }

  /** Quoted arguments unquote back to the arguments. */
  lemma {:induction false} QuotedArgsOfQuoted(args: seq<string>)
    requires forall i :: 0 <= i < |args| ==> ValidArg(args[i])
    ensures QuotedArgs(QuoteAll(args)) == Success(args)
    decreases |args|
  {
    if args != [] {
      var a, rest := args[0], args[1..];
      assert QuotedArgs(QuoteAll(rest)) == Success(rest) by {
        QuotedArgsOfQuoted(rest);
      }
      assert QuotedArgs([Quote(a)] + QuoteAll(rest)) == Success([a] + rest) by {
        QuotedArgsCons(a, rest);
      }
      assert QuoteAll(args) == [Quote(a)] + QuoteAll(rest);
      assert args == [a] + rest;
    }
  }

  /** Putting a quoted argument in front of quoted tokens puts the argument
      in front of their unquoted list. */
  lemma QuotedArgsCons(a: string, rest: seq<string>)
    requires QuotedArgs(QuoteAll(rest)) == Success(rest)
    ensures QuotedArgs([Quote(a)] + QuoteAll(rest)) == Success([a] + rest)
  {
    var tokens := [Quote(a)] + QuoteAll(rest);
    assert tokens[0] == Quote(a) && tokens[1..] == QuoteAll(rest);
    Unquote(a);
  }

  /** A quoted argument is its own trim, starts with '"' and loses exactly
      its quotes when its ends are cut. */
  lemma Unquote(a: string)
    ensures Trim(Quote(a)) == Quote(a) && StartsWith(Quote(a), "\"")
    ensures |Quote(a)| >= 2 && Quote(a)[1..|Quote(a)| - 1] == a
  {
    var q := Quote(a);
    TrimFixed(q);
  }

  /** The first '(' of `a(b` is the one after a, when a has none. */
  lemma IndexOfAfter(a: string, c: char, b: string)
    requires c !in a
    ensures IndexOf(a + [c] + b, c) == |a|
  {
    var s := a + [c] + b;
    assert s[..|a|] == a;
    assert s[|a|] == c;
    assert s[|a|] in s[..|a| + 1];
  }

  /** The name part of an encoded call: the masked text is its own trim,
      and the text before its first '(' is the name. */
  lemma ParseName(name: string, j: string)
    requires ValidName(name)
    ensures Trim(name + "(" + j + ")") == name + "(" + j + ")"
    ensures Trim(Split(name + "(" + j + ")", '(')[0]) == name
    ensures (name + "(" + j + ")")[|name|..] == "(" + j + ")"
  {
    var f := name + "(" + j + ")";
    assert !IsWhiteSpace(f[0]) by {
      if name != [] { assert f[0] == name[0]; } else { assert f[0] == '('; }
    }
    assert f[|f| - 1] == ')';
    TrimFixed(f);
    assert f == name + ['('] + (j + ")");
    IndexOfAfter(name, '(', j + ")");
    SplitFirst(f, '(');
    assert f[..|name|] == name;
    TrimFixed(name);
  }

  /** No quoted argument holds the mask character. */
  lemma QuotedHaveNoMask(args: seq<string>)
    requires forall i :: 0 <= i < |args| ==> ValidArg(args[i])
    ensures forall i :: 0 <= i < |QuoteAll(args)| ==> CommaSub !in QuoteAll(args)[i]
  {
    forall i | 0 <= i < |QuoteAll(args)| ensures CommaSub !in QuoteAll(args)[i] {
      assert QuoteAll(args)[i] == "\"" + args[i] + "\"";
    }
  }

  /** The argument part of an encoded call: the '$'-joined quoted
      arguments split and unquote back to the arguments. */
  lemma ParseArgs(args: seq<string>)
    requires forall i :: 0 <= i < |args| ==> ValidArg(args[i])
    ensures QuotedArgs(Split(Join(QuoteAll(args), CommaSub), CommaSub)) == Success(args)
  {
    if args == [] {
      assert Split("", CommaSub) == [""];
      assert Trim("") == "";
    } else {
      QuotedHaveNoMask(args);
      JoinSplit(QuoteAll(args), CommaSub);
      QuotedArgsOfQuoted(args);
    }
  }

  /** `ParseMasked` on a string made of a name and a parenthesised
      argument text. */
  lemma ParseMaskedCall(f: string, name: string, j: string, args: seq<string>)
    requires Trim(f) == f && Trim(Split(f, '(')[0]) == name
    requires |f| >= |name| && f[|name|..] == "(" + j + ")"
    requires QuotedArgs(Split(j, CommaSub)) == Success(args)
    ensures ParseMasked(f) == Success([name] + args)
  {
    var argstr := f[|name|..];
    assert argstr[1..|argstr| - 1] == j;
  }

  /** The masked text of an encoded call parses back to the name and the
      arguments. */
  lemma ParseMaskedEncoded(name: string, args: seq<string>)
    requires ValidName(name) && forall i :: 0 <= i < |args| ==> ValidArg(args[i])
    ensures ParseMasked(name + "(" + Join(QuoteAll(args), CommaSub) + ")") == Success([name] + args)
  {
    var j := Join(QuoteAll(args), CommaSub);
    var f := name + "(" + j + ")";
    ParseName(name, j);
    ParseArgs(args);
    ParseMaskedCall(f, name, j, args);
  }

  /** Writing a call out and parsing it gives back its name and arguments. */
  lemma ParseEncode(name: string, args: seq<string>)
    requires ValidName(name) && forall i :: 0 <= i < |args| ==> ValidArg(args[i])
    ensures ParseFunction(Encode(name, args)) == Success([name] + args)
  {
    ScanEncoded(name, args);
    ParseMaskedEncoded(name, args);
  }

  // ---------------------------------------------------------------------
  // Inputs the parse does not survive.

  /** Text without parentheses or quotes, and without whitespace at either
      end, is all name: there is no argument text to strip the first and
      last characters of, so `Substring` throws. */
  lemma NameAloneFails(f: string)
    requires '(' !in f && ')' !in f && '"' !in f && Trim(f) == f
    ensures ParseFunction(f).Failure?
  {
    ScanPlain(f, InsideParens, Start);
    SplitNoSeparator(f, '(', "");
    assert "" + f == f;
  }

  /** A literal '$' inside a quoted argument is read as a separator: in
      `name("a$b")` the argument is cut at the '$', the first piece loses
      its last character along with its opening quote, and the second
      piece, which does not start with '"', is dropped. */
  lemma DollarSplitsArgument(name: string, a: string, b: string)
    requires ValidName(name) && ValidArg(a) && ValidArg(b)
    requires a != [] && !IsWhiteSpace(a[|a| - 1]) && b != [] && !IsWhiteSpace(b[0])
    ensures ParseFunction(name + "(" + Quote(a + [CommaSub] + b) + ")") == Success([name, a[..|a| - 1]])
  {
    var j := Quote(a + [CommaSub] + b);
    var f := name + "(" + j + ")";
    assert Scan(f, InsideParens, Start).out == f by {
      ScanQuotedText(a + [CommaSub] + b);
      ScanCall(name, j, j);
    }
    DollarMasked(name, a, b);
  }

  /** The masked text of `name("a$b")` (the scan leaves it unchanged). */
  lemma DollarMasked(name: string, a: string, b: string)
    requires ValidName(name) && ValidArg(a) && ValidArg(b)
    requires a != [] && !IsWhiteSpace(a[|a| - 1]) && b != [] && !IsWhiteSpace(b[0])
    ensures ParseMasked(name + "(" + Quote(a + [CommaSub] + b) + ")") == Success([name, a[..|a| - 1]])
  {
    var j := Quote(a + [CommaSub] + b);
    var rest := [a[..|a| - 1]];
    assert QuotedArgs(Split(j, CommaSub)) == Success(rest) by {
      DollarSplit(a, b);
      OpenPieceKept(a);
      ClosePieceDropped(b);
      QuotedArgsPair("\"" + a, b + "\"");
    }
    ParseName(name, j);
    ParseMaskedCall(name + "(" + j + ")", name, j, rest);
    assert [name] + rest == [name, a[..|a| - 1]];
  }

  /** Quoted text without parentheses or quotes of its own scans unchanged,
      whatever it holds. */
  lemma ScanQuotedText(m: string)
    requires '"' !in m && '(' !in m && ')' !in m
    ensures Scan(Quote(m), InsideParens, ScanState(true, false)) == Scanned(Quote(m), ScanState(true, false))
  {
    ScanConcat("\"", m + "\"", InsideParens, ScanState(true, false));
    ScanConcat(m, "\"", InsideParens, ScanState(true, true));
    ScanPlain(m, InsideParens, ScanState(true, true));
    assert Quote(m) == "\"" + (m + "\"");
  }

  /** `"a$b"` splits at the '$' into `"a` and `b"`. */
  lemma DollarSplit(a: string, b: string)
    requires CommaSub !in a && CommaSub !in b
    ensures Split(Quote(a + [CommaSub] + b), CommaSub) == ["\"" + a, b + "\""]
  {
    var t1, t2 := "\"" + a, b + "\"";
    assert CommaSub !in t1 && CommaSub !in t2 by {
      assert forall c :: c in t1 ==> c == '"' || c in a;
      assert forall c :: c in t2 ==> c == '"' || c in b;
    }
    assert Quote(a + [CommaSub] + b) == t1 + [CommaSub] + t2;
    SplitFromPiece(t1, t2, CommaSub, "");
    SplitNoSeparator(t2, CommaSub, "");
    assert "" + t1 == t1 && "" + t2 == t2;
  }

  /** `"a` is its own trim and is kept, less its first and last characters. */
  lemma OpenPieceKept(a: string)
    requires a != [] && !IsWhiteSpace(a[|a| - 1])
    ensures var t := "\"" + a; Trim(t) == t && StartsWith(t, "\"") && |t| >= 2 && t[1..|t| - 1] == a[..|a| - 1]
  {
    var t := "\"" + a;
    assert t[0] == '"' && t[|t| - 1] == a[|a| - 1];
    TrimFixed(t);
  }

  /** `b"` is its own trim and, as b does not start with '"', is dropped. */
  lemma ClosePieceDropped(b: string)
    requires b != [] && !IsWhiteSpace(b[0]) && '"' !in b
    ensures var t := b + "\""; Trim(t) == t && !StartsWith(t, "\"")
  {
    var t := b + "\"";
    assert t[0] == b[0] && t[|t| - 1] == '"';
    TrimFixed(t);
    assert b[0] in b;
  }

  /** A quoted token followed by an unquoted one: only the first is kept. */
  lemma QuotedArgsPair(t1: string, t2: string)
    requires Trim(t1) == t1 && StartsWith(t1, "\"") && |t1| >= 2
    requires Trim(t2) == t2 && !StartsWith(t2, "\"")
    ensures QuotedArgs([t1, t2]) == Success([t1[1..|t1| - 1]])
  {
    QuotedArgsSkip(t2, [], []);
    QuotedArgsKeep(t1, [t2], []);
    assert [t1] + [t2] == [t1, t2] && [t2] + [] == [t2];
    assert [t1[1..|t1| - 1]] + [] == [t1[1..|t1| - 1]];
  }
}
