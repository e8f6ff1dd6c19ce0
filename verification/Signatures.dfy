/** Method signatures: `proto_sig` prints them, `parse_sig` takes them apart. */
module Signatures {
  import opened Wrappers
  import opened Seqs

  // ---- descriptors ----

  predicate IsPrimitive(c: char) {
    c in "ZBSCIJFD"
  }

  /** A parameter descriptor: a primitive, a class `L...;`, or an array of one. (The dex
      format also keeps `)` out of names; that is left to the theorem.) */
  predicate IsDescriptor(d: string) {
    d != [] &&
    if d[0] == '[' then IsDescriptor(d[1..])
    else if d[0] == 'L' then Find(d, ';', 0) == Some(|d| - 1)
    else |d| == 1 && IsPrimitive(d[0])
  }

  /** `find`: the position of the first `c` at or after `i`. */
  function Find(s: string, c: char, i: nat): (r: Option<nat>)
    requires i <= |s|
    ensures r.Some? ==> i <= r.value < |s| && s[r.value] == c
    decreases |s| - i
  {
    if i == |s| then None else if s[i] == c then Some(i) else Find(s, c, i + 1)
  }

  function Concat(parts: seq<string>): string {
    if parts == [] then "" else parts[0] + Concat(parts[1..])
  }

  function Print(params: seq<string>, ret: string): string {
    "(" + (Concat(params) + (")" + ret))
  }

  // ---- the parser as a function; None is a panic ----

  function ClassEnd(a: string, j: nat): (end: nat)
    requires j < |a|
    ensures j < end <= |a|
  {
    match Find(a, ';', j)
    case Some(p) => p + 1
    case None => |a|
  }

  /** The end of the run of brackets that starts at `j`. */
  function Brackets(a: string, j: nat): (end: nat)
    requires j <= |a|
    ensures j <= end <= |a|
    ensures end < |a| ==> a[end] != '['
    decreases |a| - j
  {
    if j < |a| && a[j] == '[' then Brackets(a, j + 1) else j
  }

  /** The end of the descriptor at `i`; a bracket run that reaches the end panics. */
  function ArgEnd(a: string, i: nat): (r: Option<nat>)
    requires i < |a|
    ensures r.Some? ==> i < r.value <= |a|
  {
    if a[i] == 'L' then Some(ClassEnd(a, i))
    else if a[i] == '[' then
      var j := Brackets(a, i);
      if j == |a| then None
      else if a[j] == 'L' then Some(ClassEnd(a, j))
      else Some(j + 1)
    else Some(i + 1)
  }

  function ParseArgs(a: string, i: nat): Option<seq<string>>
    requires i <= |a|
    decreases |a| - i
  {
    if i == |a| then Some([])
    else match ArgEnd(a, i)
      case None => None
      case Some(end) =>
        match ParseArgs(a, end)
        case None => None
        case Some(rest) => Some([a[i..end]] + rest)
  }

  function Parse(sig: string): Option<(seq<string>, string)> {
    var open := match Find(sig, '(', 0) case Some(p) => p case None => 0;
    match Find(sig, ')', 0)
    case None => None
    case Some(close) =>
      if open + 1 > close then None
      else match ParseArgs(sig[open + 1..close], 0)
        case None => None
        case Some(args) => Some((args, sig[close + 1..]))
  }

  // ---- parsing undoes printing ----

  lemma {:induction false} FindFirst(s: string, c: char, i: nat)
    requires i <= |s|
    ensures forall k :: i <= k < (if Find(s, c, i).Some? then Find(s, c, i).value else |s|)
                     ==> s[k] != c
    decreases |s| - i
  {
    if i < |s| && s[i] != c {
      FindFirst(s, c, i + 1);
    }
  }

  lemma FindAt(s: string, c: char, i: nat, p: nat)
    requires i <= p < |s| && s[p] == c
    requires forall k :: i <= k < p ==> s[k] != c
    ensures Find(s, c, i) == Some(p)
  {
    FindFirst(s, c, i);
  }

  lemma {:induction false} FindInPart(a: string, i: nat, d: string, k: nat)
    requires i + |d| <= |a| && a[i..i + |d|] == d && k <= |d|
    requires Find(d, ';', k).Some?
    ensures Find(a, ';', i + k) == Some(i + Find(d, ';', k).value)
    decreases |d| - k
  {
    assert a[i..i + |d|][k] == a[i + k];
    if d[k] != ';' {
      FindInPart(a, i, d, k + 1);
    }
  }

  /** A descriptor is cut off exactly at its end, whatever follows. */
  lemma {:induction false} ArgEndDescriptor(a: string, i: nat, d: string)
    requires i + |d| <= |a| && a[i..i + |d|] == d && IsDescriptor(d)
    ensures ArgEnd(a, i) == Some(i + |d|)
    decreases |d|
  {
    assert a[i] == d[0];
    if d[0] == '[' {
      assert a[i + 1..i + |d|] == d[1..];
      assert a[i + 1] == d[1];
      ArgEndDescriptor(a, i + 1, d[1..]);
      if d[1] == '[' {
        assert Brackets(a, i) == Brackets(a, i + 1);
      } else {
        assert Brackets(a, i) == Brackets(a, i + 1) == i + 1;
      }
    } else if d[0] == 'L' {
      FindInPart(a, i, d, 0);
    }
  }

  predicate AllDescriptors(params: seq<string>) {
    params == [] || (IsDescriptor(params[0]) && AllDescriptors(params[1..]))
  }

  lemma ParseArgsStep(a: string, i: nat, end: nat, rest: seq<string>)
    requires i < |a| && ArgEnd(a, i) == Some(end) && ParseArgs(a, end) == Some(rest)
    ensures ParseArgs(a, i) == Some([a[i..end]] + rest)
  {
  }

  lemma Middle(before: string, d: string, rest: string)
    ensures var a := before + (d + rest);
      |before| + |d| <= |a| && a[|before|..|before| + |d|] == d
  {
  }

  lemma ParseArgsNext(before: string, d: string, rest: string, tail: seq<string>)
    requires IsDescriptor(d)
    requires ParseArgs((before + d) + rest, |before + d|) == Some(tail)
    ensures ParseArgs(before + (d + rest), |before|) == Some([d] + tail)
  {
    Middle(before, d, rest);
    ArgEndDescriptor(before + (d + rest), |before|, d);
    Assoc(before, d, rest);
    ParseArgsStep(before + (d + rest), |before|, |before + d|, tail);
  }

  lemma {:induction false} ParseArgsConcat(before: string, params: seq<string>)
    requires AllDescriptors(params)
    ensures ParseArgs(before + Concat(params), |before|) == Some(params)
    decreases |params|
  {
    if params == [] {
      Empty(before);
    } else {
      ParseArgsConcat(before + params[0], params[1..]);
      ParseArgsNext(before, params[0], Concat(params[1..]), params[1..]);
      assert params == [params[0]] + params[1..];
    }
  }

  lemma PrintAt(params: seq<string>, ret: string)
    ensures var sig, n := Print(params, ret), |Concat(params)|;
      |sig| == n + 2 + |ret| && sig[0] == '(' && sig[n + 1] == ')'
      && sig[1..n + 1] == Concat(params) && sig[n + 2..] == ret
  {
  }

  lemma CloseFound(params: seq<string>, ret: string)
    ensures var sig, args := Print(params, ret), Concat(params);
      var close := Find(sig, ')', 0);
      Find(sig, '(', 0) == Some(0) && close.Some? && 0 < close.value < |sig| - |ret|
      && (close.value == |args| + 1 <==> ')' !in args)
  {
    PrintAt(params, ret);
    var sig, args := Print(params, ret), Concat(params);
    FindAt(sig, '(', 0, 0);
    assert forall k :: 0 <= k < |args| ==> args[k] == sig[1..|args| + 1][k] == sig[k + 1];
    FindFirst(sig, ')', 0);
    if ')' !in args {
      FindAt(sig, ')', 0, |args| + 1);
    }
  }

  /** Parsing the printed signature gives back exactly the parameters and the return
      descriptor if and only if no parameter contains a closing parenthesis. */
  lemma ParsePrint(params: seq<string>, ret: string)
    requires AllDescriptors(params)
    ensures Parse(Print(params, ret)) == Some((params, ret)) <==> ')' !in Concat(params)
  {
    var sig, args := Print(params, ret), Concat(params);
    PrintAt(params, ret);
    CloseFound(params, ret);
    var close := Find(sig, ')', 0).value;
    if close == |args| + 1 {
      Empty(args);
      ParseArgsConcat([], params);
    } else {
      assert |sig[close + 1..]| != |ret|;
    }
  }

  // ---- and loses nothing ----

  lemma {:induction false} ParseArgsCover(a: string, i: nat)
    requires i <= |a|
    ensures ParseArgs(a, i).Some? ==> Concat(ParseArgs(a, i).value) == a[i..]
    decreases |a| - i
  {
    if i < |a| && ArgEnd(a, i).Some? {
      var end := ArgEnd(a, i).value;
      ParseArgsCover(a, end);
      assert a[i..] == a[i..end] + a[end..];
    }
  }

  /** Whatever parses is the print of its parts, up to what stands before `(`. */
  lemma PrintParse(sig: string)
    requires Parse(sig).Some? && sig[0] == '('
    ensures Print(Parse(sig).value.0, Parse(sig).value.1) == sig
  {
    var close := Find(sig, ')', 0).value;
    var args, ret := sig[1..close], sig[close + 1..];
    FindAt(sig, '(', 0, 0);
    Empty(args);
    ParseArgsCover(args, 0);
    assert sig == ['('] + (args + ([')'] + ret));
  }

  // ---- the loops ----

  method ProtoSig(params: seq<string>, ret: string) returns (s: string)
    ensures s == Print(params, ret)
  {
    s := "(";
    for i := 0 to |params|
      invariant s + Concat(params[i..]) == "(" + Concat(params)
    {
      Assoc(s, params[i], Concat(params[i + 1..]));
      assert params[i..][1..] == params[i + 1..];
      s := s + params[i];
    }
    assert params[|params|..] == [] && s + "" == s;
    Assoc("(", Concat(params), ")" + ret);
    Assoc("(" + Concat(params), ")", ret);
    s := s + ")";
    s := s + ret;
  }

  function After(out: seq<string>, r: Option<seq<string>>): Option<seq<string>> {
    match r
    case Some(rest) => Some(out + rest)
    case None => None
  }

  lemma AfterNothing(r: Option<seq<string>>)
    ensures After([], r) == r
  {
    if r.Some? {
      Empty(r.value);
    }
  }

  lemma AfterStep(a: string, i: nat, end: nat, out: seq<string>)
    requires i < |a| && ArgEnd(a, i) == Some(end)
    ensures After(out, ParseArgs(a, i)) == After(out + [a[i..end]], ParseArgs(a, end))
  {
    if ParseArgs(a, end).Some? {
      Assoc(out, [a[i..end]], ParseArgs(a, end).value);
    }
  }

  /** `parse_sig`; None where the Rust code panics. */
  method ParseSig(sig: string) returns (r: Option<(seq<string>, string)>)
    ensures r == Parse(sig)
  {
    var open := match Find(sig, '(', 0) case Some(p) => p case None => 0;
    var close := match Find(sig, ')', 0) case Some(p) => p case None => |sig|;
    if open + 1 > close || close + 1 > |sig| {
      return None;
    }
    var args, ret := sig[open + 1..close], sig[close + 1..];
    var out := SplitArgs(args);
    r := if out.Some? then Some((out.value, ret)) else None;
  }

  /** The index loop of `parse_sig`. */
  method SplitArgs(args: string) returns (r: Option<seq<string>>)
    ensures r == ParseArgs(args, 0)
  {
    var out: seq<string> := [];
    var i := 0;
    AfterNothing(ParseArgs(args, 0));
    while i < |args|
      invariant 0 <= i <= |args|
      invariant ParseArgs(args, 0) == After(out, ParseArgs(args, i))
    {
      var c := args[i];
      var end;
      if c == 'L' {
        end := ClassEnd(args, i);
      } else if c == '[' {
        var j := i;
        while j < |args| && args[j] == '['
          invariant i <= j <= |args|
          invariant Brackets(args, i) == Brackets(args, j)
        {
          j := j + 1;
        }
        if j == |args| {
          return None;
        }
        end := if args[j] == 'L' then ClassEnd(args, j) else j + 1;
      } else {
        end := i + 1;
      }
      AfterStep(args, i, end, out);
      out := out + [args[i..end]];
      i := end;
    }
    Empty(out);
    r := Some(out);
  }
}
