/** ydb/ynode.c: a node's path as text, and searching a node by such a text. */
module NodePath {
  import opened Common
  import opened YNode
  import opened Deletion
  import opened MergeLaws

  // ---------- cutting a path into keys ----------

  predicate IsDelimiter(c: char) {
    c == '/' || c == '='
  }

  /** PATH_IGNORE_START: a quote or bracket, up to whose other half nothing delimits. */
  predicate IsOpen(c: char) {
    c == '\'' || c == '{' || c == '[' || c == '(' || c == '"'
  }

  /** get_pair_delimiter, of the characters above */
  function PairOf(c: char): char {
    if c == '{' then '}' else if c == '[' then ']' else if c == '(' then ')' else c
  }

  /** strpbrk: the next delimiter or opening character from a place on, the end if there is none. */
  function NextStop(s: string, i: nat): (j: nat)
    requires i <= |s|
    ensures i <= j <= |s| && forall k :: i <= k < j ==> !IsDelimiter(s[k]) && !IsOpen(s[k])
    ensures j < |s| ==> IsDelimiter(s[j]) || IsOpen(s[j])
    decreases |s| - i
  {
    if i == |s| || IsDelimiter(s[i]) || IsOpen(s[i]) then i else NextStop(s, i + 1)
  }

  /** strchr */
  function NextChar(s: string, i: nat, c: char): (j: nat)
    requires i <= |s|
    ensures i <= j <= |s| && (j < |s| ==> s[j] == c) && forall k :: i <= k < j ==> s[k] != c
    decreases |s| - i
  {
    if i == |s| || s[i] == c then i else NextChar(s, i + 1, c)
  }

  /** The next delimiter that is not between quotes or brackets; the end if there is none or something
      opened is not closed. */
  function Delimiter(s: string, t: nat): (d: nat)
    requires t <= |s| && (t < |s| ==> IsDelimiter(s[t]) || IsOpen(s[t]))
    ensures t <= d <= |s| && (d < |s| ==> IsDelimiter(s[d]))
    decreases |s| - t
  {
    if t == |s| || IsDelimiter(s[t]) then t
    else
      var u := NextChar(s, t + 1, PairOf(s[t]));
      if u == |s| then |s| else Delimiter(s, NextStop(s, u + 1))
  }

  /** ynode_path_tokenize: the keys of a path, and the value behind an equals sign. */
  function Tokens(s: string, i: nat): (seq<string>, Option<string>)
    requires i <= |s|
    decreases |s| - i
  {
    var t := Delimiter(s, NextStop(s, i));
    if t == |s| then (if i < |s| then [s[i..]] else [], None)
    else
      var key := if i < t then [s[i..t]] else [];
      if s[t] == '=' then (key, if t + 1 < |s| then Some(s[t + 1..]) else None)
      else var (keys, val) := Tokens(s, t + 1); (key + keys, val)
  }

  method StrPBrk(s: string, i: nat) returns (j: nat)
    requires i <= |s|
    ensures j == NextStop(s, i)
  {
    j := i;
    while j < |s| && !IsDelimiter(s[j]) && !IsOpen(s[j])
      invariant i <= j <= |s| && NextStop(s, i) == NextStop(s, j)
    {
      j := j + 1;
    }
  }

  method StrChr(s: string, i: nat, c: char) returns (j: nat)
    requires i <= |s|
    ensures j == NextChar(s, i, c)
  {
    j := i;
    while j < |s| && s[j] != c
      invariant i <= j <= |s| && NextChar(s, i, c) == NextChar(s, j, c)
    {
      j := j + 1;
    }
  }

  function After(keys: seq<string>, tokens: (seq<string>, Option<string>)): (seq<string>, Option<string>) {
    (keys + tokens.0, tokens.1)
  }

  lemma {:induction false} AfterNone(tokens: (seq<string>, Option<string>))
    ensures After([], tokens) == tokens
  {
    assert [] + tokens.0 == tokens.0;
  }

  /** One more key of a path, behind those before it. */
  lemma {:induction false} TokensHere(s: string, i: nat, keys: seq<string>)
    requires i <= |s|
    ensures var t := Delimiter(s, NextStop(s, i));
      var more := if i < t then keys + [s[i..t]] else keys;
      After(keys, Tokens(s, i)) ==
        if t == |s| then (if i < |s| then keys + [s[i..]] else keys, None)
        else if s[t] == '=' then (more, if t + 1 < |s| then Some(s[t + 1..]) else None)
        else After(more, Tokens(s, t + 1))
  {
    hide NextStop, Delimiter;
    var t := Delimiter(s, NextStop(s, i));
    var key := if i < t && t < |s| then [s[i..t]] else [];
    if t < |s| && s[t] != '=' {
      var rest := Tokens(s, t + 1).0;
      assert keys + (key + rest) == keys + key + rest;
    }
    assert keys + [] == keys;
  }

  /** Goes on behind what is quoted or bracketed. */
  method SkipPairs(s: string, stop: nat) returns (token: nat)
    requires stop <= |s| && (stop < |s| ==> IsDelimiter(s[stop]) || IsOpen(s[stop]))
    ensures token == Delimiter(s, stop)
  {
    hide NextChar, NextStop;
    token := stop;
    while token < |s| && !IsDelimiter(s[token])
      invariant token <= |s| && (token < |s| ==> IsDelimiter(s[token]) || IsOpen(s[token]))
      invariant Delimiter(s, stop) == Delimiter(s, token)
      decreases |s| - token
    {
      token := StrChr(s, token + 1, PairOf(s[token]));
      if token < |s| {
        token := StrPBrk(s, token + 1);
      }
    }
  }

  method Tokenize(s: string) returns (keys: seq<string>, val: Option<string>)
    ensures (keys, val) == Tokens(s, 0)
  {
    hide NextChar, NextStop, Tokens, Delimiter;
    keys, val := [], None;
    var i, isVal := 0, false;
    AfterNone(Tokens(s, 0));
    var token := StrPBrk(s, 0);
    while token < |s|
      invariant i <= |s| && token == NextStop(s, i)
      invariant !isVal ==> Tokens(s, 0) == After(keys, Tokens(s, i))
      invariant isVal ==> Tokens(s, 0) == (keys, if i < |s| then Some(s[i..]) else None)
      decreases |s| - i
    {
      TokensHere(s, i, keys);
      token := SkipPairs(s, token);
      if token == |s| {
        break;
      }
      if isVal {
        token := |s|;
        break;
      }
      if token > i {
        keys := keys + [s[i..token]];
      }
      isVal := s[token] == '=';
      i := token + 1;
      token := StrPBrk(s, i);
    }
    TokensHere(s, i, keys);
    if i < |s| {
      if isVal {
        val := Some(s[i..]);
      } else {
        keys := keys + [s[i..]];
      }
    }
  }

  // ---------- searching ----------

  /** How far down the keys lead, as places among the children, and whether all of them do. */
  function Best(t: Tree, keys: seq<string>): (seq<nat>, bool) {
    if keys == [] then ([], true)
    else
      var i := Place(t, keys[0]);
      if i == |t.kids| then ([], false)
      else var (found, matched) := Best(t.kids[i].node, keys[1..]); ([i] + found, matched)
  }

  /** ynode_search_best: the node found is the one at `at` from the base. */
  method SearchBest(base: Tree, path: string) returns (node: Tree, at: seq<nat>, matched: bool)
    ensures (at, matched) == Best(base, Tokens(path, 0).0) && Leads(base, at) && node == NodeAt(base, at)
  {
    hide Best, Place, Tokens, NodeAt, Leads;
    var keys, val := Tokenize(path);
    ghost var all := keys;
    node, at, matched := base, [], true;
    BestNone(base, keys);
    Here(base);
    while keys != []
      invariant Leads(base, at) && node == NodeAt(base, at)
      invariant Best(base, all) == (at + Best(node, keys).0, Best(node, keys).1)
    {
      BestNext(node, keys, at);
      var i := Place(node, keys[0]);
      if i < |node.kids| {
        OneDeeper(base, at, i);
        node, at := node.kids[i].node, at + [i];
      } else {
        return node, at, false;
      }
      keys := keys[1..];
    }
    NoKeys(node, at);
  }

  lemma {:induction false} Here(t: Tree)
    ensures Leads(t, []) && NodeAt(t, []) == t
  {
  }

  lemma {:induction false} NoKeys(t: Tree, at: seq<nat>)
    ensures at + Best(t, []).0 == at && Best(t, []).1
  {
  }

  lemma {:induction false} BestNext(t: Tree, keys: seq<string>, at: seq<nat>)
    requires keys != []
    ensures var i := Place(t, keys[0]); var b := Best(t, keys);
      if i == |t.kids| then at + b.0 == at && !b.1
      else var c := Best(t.kids[i].node, keys[1..]); at + b.0 == at + [i] + c.0 && b.1 == c.1
  {
    hide Place;
  }

  lemma {:induction false} BestNone(t: Tree, keys: seq<string>)
    ensures [] + Best(t, keys).0 == Best(t, keys).0
  {
  }

  /** A way down by places among the children. */
  predicate Leads(t: Tree, at: seq<nat>)
    decreases |at|
  {
    at != [] ==> at[0] < |t.kids| && Leads(t.kids[at[0]].node, at[1..])
  }

  function NodeAt(t: Tree, at: seq<nat>): Tree
    requires Leads(t, at)
    decreases |at|
  {
    if at == [] then t else NodeAt(t.kids[at[0]].node, at[1..])
  }

  lemma {:induction false} OneDeeper(t: Tree, at: seq<nat>, i: nat)
    requires Leads(t, at) && i < |NodeAt(t, at).kids|
    ensures Leads(t, at + [i]) && NodeAt(t, at + [i]) == NodeAt(t, at).kids[i].node
    decreases |at|
  {
    if at == [] {
      assert at + [i] == [i] && [i][1..] == [];
    } else {
      OneDeeper(t.kids[at[0]].node, at[1..], i);
      assert (at + [i])[1..] == at[1..] + [i];
    }
  }

  /** The search ends where the keys lead to a node, and there is none that one key more leads to, unless
      all are used up. */
  lemma {:induction false} BestIsDeepest(t: Tree, keys: seq<string>)
    ensures var (at, matched) := Best(t, keys);
      |at| <= |keys| && Leads(t, at) && At(t, keys[..|at|]) == Some(NodeAt(t, at)) && (matched <==> |at| == |keys|)
      && (!matched ==> At(t, keys[..|at| + 1]).None?)
    decreases |keys|
  {
    hide Place;
    if keys != [] {
      var i := Place(t, keys[0]);
      if i < |t.kids| {
        var c, rest := t.kids[i].node, keys[1..];
        BestIsDeepest(c, rest);
        var (found, matched) := Best(c, rest);
        var at := [i] + found;
        assert at[1..] == found && keys[..|at|][1..] == rest[..|found|];
        assert !matched ==> keys[..|at| + 1][1..] == rest[..|found| + 1];
      }
    }
  }

  // ---------- printing a path ----------

  /** %d of an index */
  function Decimal(i: nat): (s: string)
    ensures s != "" && forall c :: c in s ==> IsDigit(c)
  {
    var last := [('0' as int + i % 10) as char];
    if i < 10 then last else Decimal(i / 10) + last
  }

  function StepText(t: Tree, i: nat): string
    requires i < |t.kids|
  {
    if t.kind == List then Decimal(i) else t.kids[i].key
  }

  /** The keys and indexes on the way to a node. */
  function StepsTo(t: Tree, at: seq<nat>): (keys: seq<string>)
    requires Leads(t, at)
    ensures |keys| == |at|
    decreases |at|
  {
    if at == [] then [] else [StepText(t, at[0])] + StepsTo(t.kids[at[0]].node, at[1..])
  }

  /** ynode_path_fprintf */
  function Printed(keys: seq<string>): string {
    if keys == [] then "" else "/" + keys[0] + Printed(keys[1..])
  }

  /** ynode_path: the top is a single slash. */
  function PathText(t: Tree, at: seq<nat>): string
    requires Leads(t, at)
  {
    if at == [] then "/" else Printed(StepsTo(t, at))
  }

  /** Each key is printed behind a slash. */
  lemma {:induction false} PrintedParts(a: seq<string>, b: seq<string>)
    ensures Printed(a + b) == Printed(a) + Printed(b)
    ensures |a| == 1 ==> Printed(a) == "/" + a[0]
  {
    if a == [] {
      assert a + b == b;
    } else {
      assert (a + b)[1..] == a[1..] + b;
      PrintedParts(a[1..], b);
    }
  }

  /** An index has no zeros in front. */
  lemma {:induction false} DecimalShort(i: nat)
    ensures if i == 0 then Decimal(i) == "0" else Decimal(i)[0] != '0'
  {
    if i >= 10 {
      DecimalShort(i / 10);
    }
  }

  /** A key that its text leaves alone and that contains nothing to cut a path at. */
  predicate Plain(key: string) {
    key != "" && forall c :: c in key ==> !IsDelimiter(c) && !IsOpen(c)
  }

  lemma {:induction false} NextStopIs(s: string, i: nat, j: nat)
    requires i <= j <= |s| && (forall k :: i <= k < j ==> !IsDelimiter(s[k]) && !IsOpen(s[k])) &&
      (j < |s| ==> IsDelimiter(s[j]))
    ensures NextStop(s, i) == j && Delimiter(s, j) == j
    decreases j - i
  {
    if i < j {
      NextStopIs(s, i + 1, j);
    }
  }

  /** Plain keys come out of their printed path as they went in. */
  lemma {:induction false} TokensOfPrinted(s: string, i: nat, keys: seq<string>)
    requires i <= |s| && keys != [] && (forall k :: 0 <= k < |keys| ==> Plain(keys[k]))
    requires s[i..] == keys[0] + Printed(keys[1..])
    ensures Tokens(s, i) == (keys, None)
    decreases |keys|
  {
    hide NextStop, Delimiter, Plain, IsDelimiter, IsOpen, Tokens, Printed;
    var k, t := keys[0], i + |keys[0]|;
    KeyEnds(s, i, keys);
    NextStopIs(s, i, t);
    RestOfPath(s, i, keys);
    if |keys| == 1 {
      TokensEnd(s, i);
      assert keys == [keys[0]];
    } else {
      TokensOfPrinted(s, t + 1, keys[1..]);
      TokensKey(s, i, t);
    }
  }

  /** What follows the first key. */
  lemma {:induction false} RestOfPath(s: string, i: nat, keys: seq<string>)
    requires i <= |s| && keys != [] && s[i..] == keys[0] + Printed(keys[1..])
    ensures var t := i + |keys[0]|;
      t <= |s| && s[i..t] == keys[0] && keys == [keys[0]] + keys[1..]
      && if |keys| == 1 then s[i..] == keys[0]
         else t < |s| && s[t + 1..] == keys[1] + Printed(keys[1..][1..])
  {
    var t, rest := i + |keys[0]|, Printed(keys[1..]);
    assert s[i..t] == keys[0] && s[t..] == rest;
    if |keys| > 1 {
      assert rest == "/" + keys[1] + Printed(keys[1..][1..]);
      assert s[t..][1..] == s[t + 1..];
    }
  }

  lemma {:induction false} KeyEnds(s: string, i: nat, keys: seq<string>)
    requires i <= |s| && keys != [] && Plain(keys[0]) && s[i..] == keys[0] + Printed(keys[1..])
    ensures var t := i + |keys[0]|;
      i < t <= |s| && (forall k :: i <= k < t ==> !IsDelimiter(s[k]) && !IsOpen(s[k]))
      && (t < |s| ==> s[t] == '/' && IsDelimiter(s[t])) && (t < |s| <==> |keys| > 1)
  {
    var k, t := keys[0], i + |keys[0]|;
    forall j | i <= j < t ensures s[j] in k {
      assert s[j] == s[i..][j - i] == k[j - i];
    }
    if t < |s| {
      assert s[t] == s[i..][|k|] == Printed(keys[1..])[0];
    }
  }

  lemma {:induction false} TokensEnd(s: string, i: nat)
    requires i < |s| && NextStop(s, i) == |s| && Delimiter(s, |s|) == |s|
    ensures Tokens(s, i) == ([s[i..]], None)
  {
    hide NextStop, Delimiter;
  }

  lemma {:induction false} TokensKey(s: string, i: nat, t: nat)
    requires i <= t < |s| && NextStop(s, i) == t && Delimiter(s, t) == t && s[t] == '/'
    ensures Tokens(s, i) == ((if i < t then [s[i..t]] else []) + Tokens(s, t + 1).0, Tokens(s, t + 1).1)
  {
    hide NextStop, Delimiter;
  }

  lemma {:induction false} SlashFirst(keys: seq<string>)
    requires keys != []
    ensures var s := Printed(keys);
      s != "" && s[0] == '/' && IsDelimiter(s[0]) && s[1..] == keys[0] + Printed(keys[1..])
  {
    var rest := keys[0] + Printed(keys[1..]);
    assert Printed(keys) == "/" + rest;
  }

  lemma {:induction false} TokensOfPath(keys: seq<string>)
    requires keys != [] && forall k :: 0 <= k < |keys| ==> Plain(keys[k])
    ensures Tokens(Printed(keys), 0) == (keys, None)
  {
    hide Tokens, Plain, NextStop, Delimiter;
    var s := Printed(keys);
    SlashFirst(keys);
    NextStopIs(s, 0, 0);
    TokensKey(s, 0, 0);
    TokensOfPrinted(s, 1, keys);
    assert [] + keys == keys;
  }

  // ---------- quotes, brackets and values ----------

  predicate IsPlain(s: string) {
    forall c :: c in s ==> c !in "/='\"{[("
  }

  lemma {:induction false} PlainStop(s: string, i: nat, j: nat)
    requires i <= j <= |s| && IsPlain(s[i..j]) && (j < |s| ==> s[j] in "/='\"{[(")
    ensures NextStop(s, i) == j
    decreases j - i
  {
    if i < j {
      assert s[i..j][0] == s[i] && s[i] in s[i..j];
      assert s[i + 1..j] == s[i..j][1..];
      PlainStop(s, i + 1, j);
    }
  }

  lemma {:induction false} CharAt(s: string, i: nat, j: nat, c: char)
    requires i <= j < |s| && s[j] == c && c !in s[i..j]
    ensures NextChar(s, i, c) == j
  {
    forall k | i <= k < j ensures s[k] != c {
      assert s[i..j][k - i] == s[k];
    }
  }

  predicate IsPair(open: char, close: char) {
    (open == '\'' && close == '\'') || (open == '"' && close == '"') || (open == '{' && close == '}') ||
    (open == '[' && close == ']') || (open == '(' && close == ')')
  }

  /** What stands between a quote or bracket and its other half is part of the key, whatever it is: the key
      goes on to `end`, where the next delimiter is. */
  lemma {:induction false} QuotedKey(s: string, open: nat, close: nat, end: nat)
    requires open < close < end <= |s| && IsPlain(s[..open]) && IsPlain(s[close + 1..end])
    requires IsPair(s[open], s[close]) && s[close] !in s[open + 1..close]
    requires end < |s| ==> s[end] == '/' || s[end] == '='
    ensures Tokens(s, 0) ==
      if end == |s| then ([s], None)
      else if s[end] == '=' then ([s[..end]], if end + 1 < |s| then Some(s[end + 1..]) else None)
      else ([s[..end]] + Tokens(s, end + 1).0, Tokens(s, end + 1).1)
  {
    hide NextStop, NextChar, Delimiter, IsPlain;
    assert s[0..open] == s[..open];
    PlainStop(s, 0, open);
    CharAt(s, open + 1, close, s[close]);
    PlainStop(s, close + 1, end);
    PairSkipped(s, open, close, end);
    KeyCut(s, end);
  }

  lemma {:induction false} PairSkipped(s: string, open: nat, close: nat, end: nat)
    requires open < close < end <= |s| && IsPair(s[open], s[close])
    requires NextChar(s, open + 1, s[close]) == close && NextStop(s, close + 1) == end
    requires end < |s| ==> s[end] == '/' || s[end] == '='
    ensures Delimiter(s, open) == end
  {
    hide NextStop, NextChar;
    assert Delimiter(s, end) == end;
  }

  lemma {:induction false} KeyCut(s: string, d: nat)
    requires 0 < d <= |s| && Delimiter(s, NextStop(s, 0)) == d
    ensures Tokens(s, 0) ==
      if d == |s| then ([s], None)
      else if s[d] == '=' then ([s[..d]], if d + 1 < |s| then Some(s[d + 1..]) else None)
      else ([s[..d]] + Tokens(s, d + 1).0, Tokens(s, d + 1).1)
  {
    hide NextStop, Delimiter;
    assert s[0..] == s;
  }

  /** Behind an equals sign comes the value, whatever it is. */
  lemma {:induction false} ValueBehind(key: string, value: string)
    requires key != "" && IsPlain(key)
    ensures Tokens(key + "=" + value, 0) == ([key], if value == "" then None else Some(value))
  {
    hide NextStop, Delimiter;
    var s := key + "=" + value;
    assert s[..|key|] == key && s[|key|] == '=' && s[|key| + 1..] == value;
    PlainStop(s, 0, |key|);
    AtDelimiter(s, |key|);
    KeyCut(s, |key|);
  }

  lemma {:induction false} AtDelimiter(s: string, d: nat)
    requires d < |s| && (s[d] == '/' || s[d] == '=')
    ensures Delimiter(s, d) == d
  {
  }

  // ---------- the round trip ----------

  lemma {:induction false} DigitsMore(s: string, c: char, value: nat)
    requires (forall x :: x in s ==> IsDigit(x)) && IsDigit(c)
    ensures Digits(s + [c], value) == 10 * Digits(s, value) + (c as int - '0' as int)
  {
    if s == [] {
      assert s + [c] == [c] && [c][1..] == [];
    } else {
      assert s[0] in s;
      assert (s + [c])[1..] == s[1..] + [c];
      DigitsMore(s[1..], c, 10 * value + (s[0] as int - '0' as int));
    }
  }

  lemma {:induction false} DigitsOfDecimal(i: nat)
    ensures Digits(Decimal(i), 0) == i
  {
    var c := ('0' as int + i % 10) as char;
    if i < 10 {
      assert Digits([c], 0) == Digits([c][1..], i);
    } else {
      DigitsOfDecimal(i / 10);
      DigitsMore(Decimal(i / 10), c, 0);
    }
  }

  /** An index reads back from its decimal text as long as it is an `int`. */
  lemma {:induction false} AtoiOfDecimal(i: nat)
    ensures Atoi(Decimal(i)) == i <==> i < INTS / 2
  {
    DigitsOfDecimal(i);
    var s := Decimal(i);
    assert s[0] in s;
  }

  /** atoi passes over white space, heeds a sign, and stops at what is no digit. */
  lemma {:induction false} AtoiReads(space: string, sign: string, i: nat, rest: string)
    requires (forall c :: c in space ==> c as int in {9, 10, 11, 12, 13, 32}) && sign in {"", "+", "-"}
    requires i < 0x8000_0000
    requires rest == "" || !('0' <= rest[0] <= '9')
    ensures Atoi(space + sign + Decimal(i) + rest) == (if sign == "-" then -1 else 1) * i
    decreases |space|
  {
    NumberReads(space, sign, i, rest);
  }

  lemma {:induction false} NumberReads(space: string, sign: string, i: nat, rest: string)
    requires (forall c :: c in space ==> c as int in {9, 10, 11, 12, 13, 32}) && sign in {"", "+", "-"}
    requires rest == "" || !('0' <= rest[0] <= '9')
    ensures Number(space + sign + Decimal(i) + rest) == (if sign == "-" then -1 else 1) * i
    decreases |space|
  {
    hide Decimal, Digits;
    var s, d := space + sign + Decimal(i) + rest, Decimal(i);
    DigitsBefore(d, rest, 0);
    DigitsOfDecimal(i);
    if space != [] {
      assert s[0] == space[0] && space[0] in space && s[1..] == space[1..] + sign + d + rest;
      assert forall c :: c in space[1..] ==> c in space;
      NumberReads(space[1..], sign, i, rest);
    } else if sign != "" {
      assert s == sign + d + rest && s[1..] == d + rest;
    } else {
      assert s == d + rest && s[0] == d[0] && d[0] in d;
    }
  }

  lemma {:induction false} DigitsBefore(d: string, rest: string, value: nat)
    requires (forall c :: c in d ==> IsDigit(c)) && (rest == "" || !IsDigit(rest[0]))
    ensures Digits(d + rest, value) == Digits(d, value)
  {
    if d == [] {
      assert d + rest == rest;
    } else {
      assert d[0] in d && (d + rest)[1..] == d[1..] + rest;
      DigitsBefore(d[1..], rest, 10 * value + (d[0] as int - '0' as int));
    }
  }

  /** The keys of map-like nodes on the way are plain. */
  ghost predicate PlainWay(t: Tree, at: seq<nat>)
    requires Leads(t, at)
    decreases |at|
  {
    at != [] ==> (t.kind != List ==> Plain(t.kids[at[0]].key)) && PlainWay(t.kids[at[0]].node, at[1..])
  }

  lemma {:induction false} PlainDecimal(i: nat)
    ensures Plain(Decimal(i))
  {
  }

  lemma {:induction false} PlainSteps(t: Tree, at: seq<nat>)
    requires Leads(t, at) && PlainWay(t, at)
    ensures forall k :: 0 <= k < |StepsTo(t, at)| ==> Plain(StepsTo(t, at)[k])
    decreases |at|
  {
    hide Plain;
    if at != [] {
      PlainDecimal(at[0]);
      PlainSteps(t.kids[at[0]].node, at[1..]);
    }
  }

  /** The indexes on the way are ones that an `int` holds. */
  ghost predicate IntWay(t: Tree, at: seq<nat>)
    requires Leads(t, at)
    decreases |at|
  {
    at != [] ==> (t.kind == List ==> at[0] < INTS / 2) && IntWay(t.kids[at[0]].node, at[1..])
  }

  lemma {:induction false} PlaceOfStep(t: Tree, i: nat)
    requires Kept(t) && i < |t.kids|
    ensures Place(t, StepText(t, i)) == i <==> (t.kind == List ==> i < INTS / 2)
  {
    hide Atoi;
    if t.kind == List {
      AtoiOfDecimal(i);
    } else {
      ChildAt(t, i);
    }
  }

  /** The steps to a node lead back to it, exactly as long as indexes do not exceed an `int`. */
  lemma {:induction false} BestOfSteps(t: Tree, at: seq<nat>)
    requires WellFormed(t) && Leads(t, at)
    ensures Best(t, StepsTo(t, at)) == (at, true) <==> IntWay(t, at)
    decreases |at|
  {
    hide Place, StepText;
    if at != [] {
      var c := t.kids[at[0]].node;
      PlaceOfStep(t, at[0]);
      BestOfSteps(c, at[1..]);
      assert StepsTo(t, at)[1..] == StepsTo(c, at[1..]);
      if Place(t, StepsTo(t, at)[0]) == at[0] {
        var (found, matched) := Best(c, StepsTo(c, at[1..]));
        assert Best(t, StepsTo(t, at)) == ([at[0]] + found, matched);
        assert ([at[0]] + found)[1..] == found && [at[0]] + at[1..] == at;
      }
    }
  }

  /** Searching the path printed for a node finds that node: through maps, ordered maps and lists,
      exactly as long as indexes do not exceed an `int`. */
  lemma {:induction false} PathRoundTrip(t: Tree, at: seq<nat>)
    requires WellFormed(t) && Leads(t, at) && PlainWay(t, at)
    ensures Tokens(PathText(t, at), 0) == (StepsTo(t, at), None)
    ensures Best(t, Tokens(PathText(t, at), 0).0) == (at, true) <==> IntWay(t, at)
  {
    BestOfSteps(t, at);
    if at == [] {
      TopTokens();
    } else {
      PlainSteps(t, at);
      TokensOfPath(StepsTo(t, at));
    }
  }

  lemma {:induction false} NoTokens(s: string)
    ensures Tokens(s, |s|) == ([], None)
  {
  }

  lemma {:induction false} TopTokens()
    ensures Tokens("/", 0) == ([], None)
  {
    var s := "/";
    NextStopIs(s, 0, 0);
    NextStopIs(s, 1, 1);
    TokensKey(s, 0, 0);
    NoTokens(s);
    var none: seq<string> := [];
    assert none + none == none;
  }
}
