/** Argument passing: the command line is cut into words, and the words are laid out on the new process's stack. */
module Argv {
  import opened Common

  const SPACE: byte := 32

  // ---------------------------------------------------------------- words

  /** The leading bytes that are no delimiters. */
  function FirstWord(line: seq<byte>, delims: set<byte>): seq<byte> {
    if line == [] || line[0] in delims then [] else [line[0]] + FirstWord(line[1..], delims)
  }

  /** The words of a line, in order. */
  function Words(line: seq<byte>, delims: set<byte>): seq<seq<byte>>
    decreases |line|
  {
    if line == [] then []
    else if line[0] in delims then Words(line[1..], delims)
    else
      var w := FirstWord(line, delims);
      FirstWordIsPrefix(line, delims);
      [w] + Words(line[|w|..], delims)
  }

  lemma FirstWordIsPrefix(line: seq<byte>, delims: set<byte>)
    ensures FirstWord(line, delims) <= line
    ensures line != [] && line[0] !in delims ==> |FirstWord(line, delims)| > 0
  {
  }

  predicate IsWord(w: seq<byte>, delims: set<byte>) {
    w != [] && forall k :: 0 <= k < |w| ==> w[k] !in delims
  }

  lemma {:induction false} FirstWordOf(w: seq<byte>, rest: seq<byte>, delims: set<byte>)
    requires forall k :: 0 <= k < |w| ==> w[k] !in delims
    requires rest == [] || rest[0] in delims
    ensures FirstWord(w + rest, delims) == w
  {
    if w == [] {
      assert w + rest == rest;
    } else {
      assert (w + rest)[1..] == w[1..] + rest;
      FirstWordOf(w[1..], rest, delims);
    }
  }

  lemma WordThenRest(w: seq<byte>, rest: seq<byte>, delims: set<byte>)
    requires IsWord(w, delims) && (rest == [] || rest[0] in delims)
    ensures Words(w + rest, delims) == [w] + Words(rest, delims)
  {
    FirstWordOf(w, rest, delims);
    assert (w + rest)[|w|..] == rest;
  }

  /** A line spelled with the given gaps before its words, and one after the last. */
  function Spelled(gaps: seq<seq<byte>>, words: seq<seq<byte>>): seq<byte>
    requires |gaps| == |words| + 1
  {
    if words == [] then gaps[0] else gaps[0] + (words[0] + Spelled(gaps[1..], words[1..]))
  }

  predicate IsGap(g: seq<byte>, delims: set<byte>) {
    forall k :: 0 <= k < |g| ==> g[k] in delims
  }

  lemma {:induction false} GapIsSkipped(g: seq<byte>, rest: seq<byte>, delims: set<byte>)
    requires IsGap(g, delims)
    ensures Words(g + rest, delims) == Words(rest, delims)
  {
    if g == [] {
      assert g + rest == rest;
    } else {
      assert (g + rest)[1..] == g[1..] + rest;
      GapIsSkipped(g[1..], rest, delims);
    }
  }

  /** `Words` undoes any spelling: whatever runs of delimiters stand before, between and after the words. */
  lemma {:induction false} WordsOfSpelled(gaps: seq<seq<byte>>, words: seq<seq<byte>>, delims: set<byte>)
    requires |gaps| == |words| + 1 && forall i :: 0 <= i < |gaps| ==> IsGap(gaps[i], delims)
    requires forall i :: 0 <= i < |words| ==> IsWord(words[i], delims)
    requires forall i :: 0 < i < |words| ==> gaps[i] != []
    ensures Words(Spelled(gaps, words), delims) == words
  {
    if words == [] {
      GapIsSkipped(gaps[0], [], delims);
      assert gaps[0] + [] == gaps[0];
    } else {
      var rest := Spelled(gaps[1..], words[1..]);
      WordsOfSpelled(gaps[1..], words[1..], delims);
      GapIsSkipped(gaps[0], words[0] + rest, delims);
      RestStartsWithGap(gaps[1..], words[1..], delims);
      WordThenRest(words[0], rest, delims);
    }
  }

  lemma RestStartsWithGap(gaps: seq<seq<byte>>, words: seq<seq<byte>>, delims: set<byte>)
    requires |gaps| == |words| + 1 && IsGap(gaps[0], delims) && (words != [] ==> gaps[0] != [])
    ensures Spelled(gaps, words) == [] || Spelled(gaps, words)[0] in delims
  {
  }

  // ---------------------------------------------------------------- strings in memory

  /** A null byte comes at `p` or later. */
  ghost predicate HasNul(s: seq<byte>, p: nat)
    decreases |s| - p
  {
    p < |s| && (s[p] == 0 || HasNul(s, p + 1))
  }

  /** The string that starts at `p`. */
  ghost function StringAt(s: seq<byte>, p: nat): seq<byte>
    requires HasNul(s, p)
    decreases |s| - p
  {
    if s[p] == 0 then [] else [s[p]] + StringAt(s, p + 1)
  }

  lemma {:induction false} StringExtent(s: seq<byte>, p: nat)
    requires HasNul(s, p)
    ensures var r := StringAt(s, p);
      p + |r| < |s| && s[p + |r|] == 0 && r == s[p..p + |r|] && forall k :: 0 <= k < |r| ==> r[k] != 0
    decreases |s| - p
  {
    if s[p] != 0 {
      StringExtent(s, p + 1);
    }
  }

  /** A string is what lies before the first null byte. */
  lemma {:induction false} StringIs(s: seq<byte>, p: nat, q: nat)
    requires p <= q < |s| && s[q] == 0 && forall k :: p <= k < q ==> s[k] != 0
    ensures HasNul(s, p) && StringAt(s, p) == s[p..q]
    decreases q - p
  {
    if p < q {
      StringIs(s, p + 1, q);
    }
  }

  method Strlen(s: array<byte>, p: nat) returns (n: nat)
    requires HasNul(s[..], p)
    ensures n == |StringAt(s[..], p)|
  {
    n := 0;
    StringExtent(s[..], p);
    while s[p + n] != 0
      invariant n <= |StringAt(s[..], p)|
      decreases s.Length - (p + n)
    {
      n := n + 1;
    }
  }

  lemma {:induction false} TailUnchanged(s: seq<byte>, t: seq<byte>, p: nat)
    requires |s| == |t| && HasNul(s, p) && forall k :: p <= k < |s| ==> s[k] == t[k]
    ensures HasNul(t, p) && StringAt(t, p) == StringAt(s, p)
    decreases |s| - p
  {
    if s[p] != 0 {
      TailUnchanged(s, t, p + 1);
    }
  }

  lemma SkipDelimiter(s: seq<byte>, p: nat, delims: set<byte>)
    requires HasNul(s, p) && s[p] != 0 && s[p] in delims
    ensures HasNul(s, p + 1) && Words(StringAt(s, p), delims) == Words(StringAt(s, p + 1), delims)
  {
    assert StringAt(s, p)[1..] == StringAt(s, p + 1);
  }

  lemma {:induction false} StringFromTo(s: seq<byte>, p: nat, q: nat)
    requires HasNul(s, q) && p <= q && forall k :: p <= k < q ==> s[k] != 0
    ensures HasNul(s, p) && StringAt(s, p) == s[p..q] + StringAt(s, q)
    decreases q - p
  {
    if p < q {
      var rest := StringAt(s, q);
      StringFromTo(s, p + 1, q);
      assert s[p..q] == [s[p]] + s[p + 1..q];
      assert ([s[p]] + s[p + 1..q]) + rest == [s[p]] + (s[p + 1..q] + rest);
    } else {
      assert s[p..q] + StringAt(s, q) == StringAt(s, q);
    }
  }

  /** A word from `p` to `q`, ended in place. */
  lemma WordEnded(s: seq<byte>, t: seq<byte>, p: nat, q: nat, delims: set<byte>)
    requires HasNul(s, q) && p < q && s[q] != 0 && s[q] in delims && t == s[q := 0]
    requires forall k :: p <= k < q ==> s[k] != 0 && s[k] !in delims
    ensures HasNul(s, p) && HasNul(t, p) && HasNul(t, q + 1)
    ensures Words(StringAt(s, p), delims) == [StringAt(t, p)] + Words(StringAt(t, q + 1), delims)
  {
    var w := s[p..q];
    assert HasNul(s, q + 1) && Words(StringAt(s, q), delims) == Words(StringAt(s, q + 1), delims) by {
      SkipDelimiter(s, q, delims);
    }
    assert HasNul(t, q + 1) && StringAt(t, q + 1) == StringAt(s, q + 1) by {
      TailUnchanged(s, t, q + 1);
    }
    assert HasNul(t, p) && StringAt(t, p) == w by {
      StringIs(t, p, q);
      assert t[p..q] == w;
    }
    assert HasNul(s, p) && StringAt(s, p) == w + StringAt(s, q) by {
      StringFromTo(s, p, q);
    }
    WordThenRest(w, StringAt(s, q), delims);
  }

  lemma LastWord(s: seq<byte>, p: nat, q: nat, delims: set<byte>)
    requires HasNul(s, q) && p < q && s[q] == 0
    requires forall k :: p <= k < q ==> s[k] != 0 && s[k] !in delims
    ensures HasNul(s, p) && Words(StringAt(s, p), delims) == [StringAt(s, p)] + Words(StringAt(s, q), delims)
  {
    StringFromTo(s, p, q);
    WordThenRest(s[p..q], StringAt(s, q), delims);
    assert s[p..q] + [] == s[p..q];
  }

  method SkipDelimiters(s: array<byte>, from: nat, delims: set<byte>) returns (p: nat)
    requires HasNul(s[..], from)
    ensures from <= p < s.Length && HasNul(s[..], p) && (s[p] == 0 || s[p] !in delims)
    ensures Words(StringAt(s[..], p), delims) == Words(StringAt(s[..], from), delims)
  {
    ghost var was := s[..];
    p := from;
    while s[p] != 0 && s[p] in delims
      invariant from <= p < s.Length && HasNul(was, p)
      invariant Words(StringAt(was, p), delims) == Words(StringAt(was, from), delims)
      decreases s.Length - p
    {
      SkipDelimiter(was, p, delims);
      p := p + 1;
    }
  }

  method ScanWord(s: array<byte>, from: nat, delims: set<byte>) returns (p: nat)
    requires HasNul(s[..], from)
    ensures from <= p < s.Length && HasNul(s[..], p) && (s[p] == 0 || s[p] in delims)
    ensures forall k :: from <= k < p ==> s[k] != 0 && s[k] !in delims
  {
    ghost var was := s[..];
    p := from;
    while s[p] != 0 && s[p] !in delims
      invariant from <= p < s.Length && HasNul(was, p)
      invariant forall k :: from <= k < p ==> s[k] != 0 && s[k] !in delims
      decreases s.Length - p
    {
      assert was[p] != 0;
      p := p + 1;
    }
  }

  /** Finds the next word from `from` on, ends it with a null byte, and says where to go on. */
  method StrtokR(s: array<byte>, from: nat, delims: set<byte>) returns (token: int, save: nat)
    requires HasNul(s[..], from) && 0 !in delims
    modifies s
    ensures from <= save && HasNul(s[..], save)
    ensures token < 0 <==> Words(old(StringAt(s[..], from)), delims) == []
    ensures token < 0 ==> s[..] == old(s[..]) && Words(StringAt(s[..], save), delims) == []
    ensures token >= 0 ==> from <= token < save && HasNul(s[..], token)
    ensures token >= 0 ==>
      Words(old(StringAt(s[..], from)), delims) == [StringAt(s[..], token)] + Words(StringAt(s[..], save), delims)
  {
    ghost var was := s[..];
    var p := SkipDelimiters(s, from, delims);
    if s[p] == 0 {
      return -1, p;
    }
    token := p;
    p := ScanWord(s, token, delims);
    if s[p] != 0 {
      WordEnded(was, was[p := 0], token, p, delims);
      s[p] := 0;
      assert s[..] == was[p := 0];
      save := p + 1;
    } else {
      LastWord(was, token, p, delims);
      save := p;
    }
  }

  // ---------------------------------------------------------------- the stack page

  const STACK_BASE := PHYS_BASE - PGSIZE       // the page below PHYS_BASE holds the whole image
  const MAX_CMD_ARGS_COUNT := 64

  /** The stack page's contents, lowest address first. */
  type Page = p: seq<byte> | |p| == PGSIZE witness seq(PGSIZE, _ => 0)

  predicate InPage(a: int, n: nat) {
    STACK_BASE <= a && a + n <= PHYS_BASE
  }

  /** The bytes at address `a` are `data`. */
  predicate Holds(mem: Page, a: int, data: seq<byte>) {
    InPage(a, |data|) && forall k :: 0 <= k < |data| ==> mem[a - STACK_BASE + k] == data[k]
  }

  function ReadWord(mem: Page, a: int): nat
    requires InPage(a, 4)
  {
    Value(mem[a - STACK_BASE..a - STACK_BASE + 4])
  }

  function StringBytes(words: seq<seq<byte>>): nat {
    if words == [] then 0 else StringBytes(words[..|words| - 1]) + |words[|words| - 1]| + 1
  }

  /** The size of the whole image: the strings, padding to a word, the pointers and their null, and three more words. */
  function Footprint(words: seq<seq<byte>>): nat {
    (StringBytes(words) + 3) / 4 * 4 + 4 * (|words| + 1) + 12
  }

  /** What the new process finds at its stack pointer: a return address of 0, argc, argv, and through argv each word as
      a string in order, closed by a null pointer; the strings lie above the array. */
  ghost predicate Image(mem: Page, esp: int, words: seq<seq<byte>>) {
    var n, argv := |words|, esp + 12;
    && esp % 4 == 0 && InPage(esp, 12 + 4 * (n + 1))
    && ReadWord(mem, esp) == 0 && ReadWord(mem, esp + 4) == n && ReadWord(mem, esp + 8) == argv
    && ReadWord(mem, argv + 4 * n) == 0
    && forall i :: 0 <= i < n ==> IsArgument(mem, argv, n, i, words[i])
  }

  ghost predicate IsArgument(mem: Page, argv: int, n: nat, i: nat, word: seq<byte>)
    requires i < n && InPage(argv, 4 * (n + 1))
  {
    var a := ReadWord(mem, argv + 4 * i);
    argv + 4 * (n + 1) <= a < PHYS_BASE && HasNul(mem, a - STACK_BASE) && StringAt(mem, a - STACK_BASE) == word
  }

  /** Nothing from `esp` up has changed. */
  predicate SameAbove(was: Page, now: Page, esp: int) {
    InPage(esp, 0) && forall j :: esp - STACK_BASE <= j < PGSIZE ==> now[j] == was[j]
  }

  lemma HoldsAbove(was: Page, now: Page, esp: int, a: int, data: seq<byte>)
    requires SameAbove(was, now, esp) && a >= esp && Holds(was, a, data)
    ensures Holds(now, a, data)
  {
  }

  lemma HeldString(mem: Page, a: int, word: seq<byte>)
    requires Holds(mem, a, word + [0]) && forall k :: 0 <= k < |word| ==> word[k] != 0
    ensures HasNul(mem, a - STACK_BASE) && StringAt(mem, a - STACK_BASE) == word
  {
    var i, s := a - STACK_BASE, word + [0];
    assert s[|word|] == 0 && mem[i + |word|] == 0;
    forall j | i <= j < i + |word| ensures mem[j] == word[j - i] {
      assert mem[i + (j - i)] == s[j - i];
    }
    StringIs(mem, i, i + |word|);
    assert mem[i..i + |word|] == word;
  }

  lemma HeldWord(mem: Page, a: int, v: nat)
    requires v < 0x1_0000_0000 && Holds(mem, a, LittleEndian(v))
    ensures ReadWord(mem, a) == v
  {
    ValueReadsBack(v);
    var i, d := a - STACK_BASE, LittleEndian(v);
    assert mem[i + 0] == d[0] && mem[i + 1] == d[1] && mem[i + 2] == d[2] && mem[i + 3] == d[3];
    assert mem[i..i + 4] == d;
  }

  // ---------------------------------------------------------------- building it

  /** Stores `data` just below `esp`. */
  method Push(page: array<byte>, esp: int, data: seq<byte>) returns (esp': int)
    requires page.Length == PGSIZE && InPage(esp - |data|, |data|)
    modifies page
    ensures esp' == esp - |data| && Holds(page[..], esp', data) && SameAbove(old(page[..]), page[..], esp)
  {
    esp' := esp - |data|;
    var at := esp' - STACK_BASE;
    for i := 0 to |data|
      invariant forall k :: 0 <= k < i ==> page[at + k] == data[k]
      invariant forall j :: esp - STACK_BASE <= j < PGSIZE ==> page[j] == old(page[j])
    {
      page[at + i] := data[i];
    }
  }

  ghost predicate StringsHeld(mem: Page, esp: int, addrs: seq<int>, words: seq<seq<byte>>) {
    && |addrs| == |words|
    && forall i :: 0 <= i < |words| ==> addrs[i] >= esp && Holds(mem, addrs[i], words[i] + [0])
  }

  ghost predicate NoNuls(words: seq<seq<byte>>) {
    forall i, k :: 0 <= i < |words| && 0 <= k < |words[i]| ==> words[i][k] != 0
  }

  lemma StringsAbove(was: Page, now: Page, esp: int, addrs: seq<int>, words: seq<seq<byte>>)
    requires SameAbove(was, now, esp) && StringsHeld(was, esp, addrs, words)
    ensures StringsHeld(now, esp, addrs, words)
  {
    forall i | 0 <= i < |words| ensures Holds(now, addrs[i], words[i] + [0]) {
      HoldsAbove(was, now, esp, addrs[i], words[i] + [0]);
    }
  }

  lemma StringsAboveAt(was: Page, now: Page, low: int, esp: int, addrs: seq<int>, words: seq<seq<byte>>)
    requires SameAbove(was, now, esp) && esp <= low && StringsHeld(was, low, addrs, words)
    ensures StringsHeld(now, low, addrs, words)
  {
    forall i | 0 <= i < |words| ensures Holds(now, addrs[i], words[i] + [0]) {
      HoldsAbove(was, now, esp, addrs[i], words[i] + [0]);
    }
  }

  lemma {:induction false} PrefixFits(words: seq<seq<byte>>, n: nat)
    requires n <= |words|
    ensures StringBytes(words[..n]) <= StringBytes(words)
    decreases |words| - n
  {
    if n < |words| {
      PrefixFits(words, n + 1);
      assert words[..n + 1][..n] == words[..n];
    } else {
      assert words[..n] == words;
    }
  }

  lemma NextWord(words: seq<seq<byte>>, done: seq<seq<byte>>, word: seq<byte>, rest: seq<seq<byte>>)
    requires words == done + ([word] + rest)
    ensures words == done + [word] + rest
    ensures StringBytes(done + [word]) == StringBytes(done) + |word| + 1 <= StringBytes(words)
  {
    PrefixFits(words, |done| + 1);
    assert words[..|done| + 1] == done + [word];
    assert (done + [word])[..|done|] == done;
  }

  /** Copies one word, with its null byte, onto the stack. */
  method PushToken(line: array<byte>, token: nat, page: array<byte>, esp: int) returns (esp': int)
    requires page.Length == PGSIZE && page != line && HasNul(line[..], token) && InPage(esp, 0)
    requires STACK_BASE + |StringAt(line[..], token)| + 1 <= esp
    modifies page
    ensures var word := StringAt(line[..], token);
      && (forall k :: 0 <= k < |word| ==> word[k] != 0)
      && esp' == esp - (|word| + 1) && Holds(page[..], esp', word + [0]) && SameAbove(old(page[..]), page[..], esp)
  {
    StringExtent(line[..], token);
    var len := Strlen(line, token);
    ghost var word := StringAt(line[..], token);
    assert line[token..token + len] == word;
    esp' := Push(page, esp, line[token..token + len] + [0]);
  }

  lemma StringsGrow(was: Page, now: Page, top: int, esp: int, addrs: seq<int>, done: seq<seq<byte>>, word: seq<byte>)
    requires SameAbove(was, now, top) && StringsHeld(was, top, addrs, done) && NoNuls(done)
    requires esp <= top && Holds(now, esp, word + [0]) && forall k :: 0 <= k < |word| ==> word[k] != 0
    ensures StringsHeld(now, esp, addrs + [esp], done + [word]) && NoNuls(done + [word])
  {
    StringsAbove(was, now, top, addrs, done);
  }

  /** The words from `token` on, the rest of them still to be looked for from `save` on. */
  ghost predicate TokensLeft(line: seq<byte>, token: int, save: nat, rest: seq<seq<byte>>) {
    && HasNul(line, save)
    && if token < 0 then rest == []
       else HasNul(line, token) && rest == [StringAt(line, token)] + Words(StringAt(line, save), {SPACE})
  }

  /** The next call of `strtok_r`, with what it finds. */
  method NextToken(line: array<byte>, from: nat, ghost rest: seq<seq<byte>>) returns (token: int, save: nat)
    requires HasNul(line[..], from) && rest == Words(StringAt(line[..], from), {SPACE})
    modifies line
    ensures TokensLeft(line[..], token, save, rest) && from <= save && (token >= 0 ==> from < save)
  {
    token, save := StrtokR(line, from, {SPACE});
  }

  /** One pass of the loop: the word goes onto the stack, and the next is looked for. */
  method PushNext(line: array<byte>, page: array<byte>, token: nat, save: nat, esp: int, addrs: seq<int>,
                  ghost done: seq<seq<byte>>, ghost rest: seq<seq<byte>>, ghost words: seq<seq<byte>>)
    returns (token': int, save': nat, esp': int, ghost word: seq<byte>, ghost rest': seq<seq<byte>>)
    requires page.Length == PGSIZE && page != line && TokensLeft(line[..], token, save, rest)
    requires words == done + rest && StringBytes(words) <= PGSIZE && esp == PHYS_BASE - StringBytes(done)
    requires StringsHeld(page[..], esp, addrs, done) && NoNuls(done)
    modifies line, page
    ensures esp' == PHYS_BASE - StringBytes(done + [word]) && words == done + [word] + rest'
    ensures StringsHeld(page[..], esp', addrs + [esp'], done + [word]) && NoNuls(done + [word])
    ensures TokensLeft(line[..], token', save', rest') && save <= save' && (token' >= 0 ==> save < save')
  {
    word := StringAt(line[..], token);
    rest' := Words(StringAt(line[..], save), {SPACE});
    ghost var was := page[..];
    NextWord(words, done, word, rest');
    esp' := PushToken(line, token, page, esp);
    StringsGrow(was, page[..], esp, esp', addrs, done, word);
    token', save' := NextToken(line, save, rest');
  }

  /** Copies the words of the line onto the stack, first word highest. */
  method PushStrings(line: array<byte>, page: array<byte>, ghost words: seq<seq<byte>>)
    returns (esp: int, addrs: seq<int>)
    requires page.Length == PGSIZE && page != line && HasNul(line[..], 0)
    requires words == Words(StringAt(line[..], 0), {SPACE}) && StringBytes(words) <= PGSIZE
    modifies line, page
    ensures esp == PHYS_BASE - StringBytes(words) && StringsHeld(page[..], esp, addrs, words) && NoNuls(words)
  {
    esp, addrs := PHYS_BASE, [];
    ghost var done: seq<seq<byte>> := [];
    ghost var rest, word := words, [];
    var token, save := NextToken(line, 0, words);
    while token >= 0
      invariant TokensLeft(line[..], token, save, rest) && words == done + rest
      invariant esp == PHYS_BASE - StringBytes(done) && StringsHeld(page[..], esp, addrs, done) && NoNuls(done)
      decreases line.Length - save, token
    {
      token, save, esp, word, rest := PushNext(line, page, token, save, esp, addrs, done, rest, words);
      addrs, done := addrs + [esp], done + [word];
    }
    assert done == words;
  }

  lemma SameAboveTwice(a: Page, b: Page, c: Page, high: int, low: int)
    requires SameAbove(a, b, high) && SameAbove(b, c, low) && low <= high
    ensures SameAbove(a, c, high)
  {
  }

  /** Pads with zeros down to a word boundary. */
  method Align(page: array<byte>, esp: int) returns (esp': int)
    requires page.Length == PGSIZE && InPage(esp, 0)
    modifies page
    ensures esp' == esp / 4 * 4 && STACK_BASE <= esp' && SameAbove(old(page[..]), page[..], esp)
  {
    esp' := esp;
    while esp' % 4 != 0
      invariant esp / 4 * 4 <= esp' <= esp && STACK_BASE <= esp'
      invariant SameAbove(old(page[..]), page[..], esp)
    {
      esp' := esp' - 1;
      page[esp' - STACK_BASE] := 0;
    }
  }

  /** The pointers from number `from` on stand where argv's elements belong, with the null pointer at `top`. */
  ghost predicate PointersHeld(mem: Page, top: int, addrs: seq<int>, from: nat) {
    forall k :: from <= k < |addrs| ==> IsPointer(mem, top, addrs, k)
  }

  predicate IsPointer(mem: Page, top: int, addrs: seq<int>, k: nat)
    requires k < |addrs|
  {
    InPage(addrs[k], 0) && Holds(mem, top - 4 * (|addrs| - k), LittleEndian(addrs[k]))
  }

  lemma PointersGrow(was: Page, now: Page, top: int, addrs: seq<int>, i: nat)
    requires 0 < i <= |addrs| && PointersHeld(was, top, addrs, i)
    requires SameAbove(was, now, top - 4 * (|addrs| - i)) && IsPointer(now, top, addrs, i - 1)
    ensures PointersHeld(now, top, addrs, i - 1)
  {
    forall k | i <= k < |addrs| ensures IsPointer(now, top, addrs, k) {
      assert IsPointer(was, top, addrs, k);
      HoldsAbove(was, now, top - 4 * (|addrs| - i), top - 4 * (|addrs| - k), LittleEndian(addrs[k]));
    }
  }

  lemma PointersAbove(was: Page, now: Page, top: int, addrs: seq<int>)
    requires PointersHeld(was, top, addrs, 0) && SameAbove(was, now, top - 4 * |addrs|)
    ensures PointersHeld(now, top, addrs, 0)
  {
    forall k | 0 <= k < |addrs| ensures IsPointer(now, top, addrs, k) {
      assert IsPointer(was, top, addrs, k);
      HoldsAbove(was, now, top - 4 * |addrs|, top - 4 * (|addrs| - k), LittleEndian(addrs[k]));
    }
  }

  /** Pushes the null pointer and then the addresses, last one first. */
  method PushPointers(page: array<byte>, esp: int, addrs: seq<int>) returns (esp': int)
    requires page.Length == PGSIZE && InPage(esp - 4 * (|addrs| + 1), 4 * (|addrs| + 1))
    requires forall i :: 0 <= i < |addrs| ==> InPage(addrs[i], 0)
    modifies page
    ensures esp' == esp - 4 * (|addrs| + 1) && SameAbove(old(page[..]), page[..], esp)
    ensures Holds(page[..], esp - 4, LittleEndian(0)) && PointersHeld(page[..], esp - 4, addrs, 0)
  {
    var argc := |addrs|;
    var top := Push(page, esp, LittleEndian(0));
    esp' := top;
    ghost var start := page[..];
    for i := 0 to argc
      invariant esp' == top - 4 * i && SameAbove(start, page[..], top)
      invariant PointersHeld(page[..], top, addrs, argc - i)
    {
      ghost var was, high := page[..], esp';
      esp' := Push(page, esp', LittleEndian(addrs[argc - i - 1]));
      PointersGrow(was, page[..], top, addrs, argc - i);
      SameAboveTwice(start, was, page[..], top, high);
    }
    HoldsAbove(start, page[..], top, top, LittleEndian(0));
    SameAboveTwice(old(page[..]), start, page[..], esp, top);
  }

  /** What the three last words make of it. */
  method PushHeader(page: array<byte>, esp: int, argc: nat) returns (esp': int)
    requires page.Length == PGSIZE && InPage(esp - 12, 12) && argc <= MAX_CMD_ARGS_COUNT
    modifies page
    ensures esp' == esp - 12 && SameAbove(old(page[..]), page[..], esp)
    ensures Holds(page[..], esp', LittleEndian(0)) && Holds(page[..], esp' + 4, LittleEndian(argc))
    ensures Holds(page[..], esp' + 8, LittleEndian(esp))
  {
    ghost var m0 := page[..];
    var p1 := Push(page, esp, LittleEndian(esp));
    ghost var m1 := page[..];
    var p2 := Push(page, p1, LittleEndian(argc));
    ghost var m2 := page[..];
    esp' := Push(page, p2, LittleEndian(0));
    HoldsAbove(m1, m2, p1, p1, LittleEndian(esp));
    HoldsAbove(m2, page[..], p2, p1, LittleEndian(esp));
    HoldsAbove(m2, page[..], p2, p2, LittleEndian(argc));
    SameAboveTwice(m0, m1, m2, esp, p1);
    SameAboveTwice(m0, m2, page[..], esp, p2);
    assert p1 == esp' + 8 && p2 == esp' + 4;
  }

  lemma ArgumentReadsBack(mem: Page, argv: int, top: int, addrs: seq<int>, words: seq<seq<byte>>, i: nat, low: int)
    requires i < |words| == |addrs| && StringsHeld(mem, low, addrs, words) && NoNuls(words)
    requires PointersHeld(mem, top, addrs, 0) && InPage(argv, 4 * (|words| + 1))
    requires top == argv + 4 * |words| && top + 4 <= low
    ensures IsArgument(mem, argv, |words|, i, words[i])
  {
    assert IsPointer(mem, top, addrs, i);
    var a := argv + 4 * i;
    assert a == top - 4 * (|addrs| - i);
    HeldWord(mem, a, addrs[i]);
    HeldString(mem, addrs[i], words[i]);
  }

  /** Strings, pointers and header together make an image. */
  lemma ImageOf(mem: Page, esp: int, argv: int, top: int, addrs: seq<int>, words: seq<seq<byte>>, low: int)
    requires StringsHeld(mem, low, addrs, words) && NoNuls(words) && InPage(low, 0) && |words| <= MAX_CMD_ARGS_COUNT
    requires esp % 4 == 0 && STACK_BASE <= esp && argv == esp + 12 && top == argv + 4 * |words| && top + 4 <= low
    requires PointersHeld(mem, top, addrs, 0) && Holds(mem, top, LittleEndian(0))
    requires Holds(mem, esp, LittleEndian(0)) && Holds(mem, esp + 4, LittleEndian(|words|))
    requires Holds(mem, esp + 8, LittleEndian(argv))
    ensures Image(mem, esp, words)
  {
    assert ReadWord(mem, esp) == 0 && ReadWord(mem, esp + 4) == |words| && ReadWord(mem, esp + 8) == argv by {
      HeldWord(mem, esp, 0);
      HeldWord(mem, esp + 4, |words|);
      HeldWord(mem, esp + 8, argv);
    }
    assert ReadWord(mem, top) == 0 by {
      HeldWord(mem, top, 0);
    }
    forall i | 0 <= i < |words| ensures IsArgument(mem, argv, |words|, i, words[i]) {
      ArgumentReadsBack(mem, argv, top, addrs, words, i, low);
    }
  }

  /** What lies above the three last words stays as it was. */
  lemma HeaderKeepsVector(was: Page, now: Page, low: int, argv: int, top: int, addrs: seq<int>, words: seq<seq<byte>>)
    requires StringsHeld(was, low, addrs, words) && SameAbove(was, now, argv) && InPage(argv, 0) && argv <= top < low
    requires argv == top - 4 * |addrs| && PointersHeld(was, top, addrs, 0) && Holds(was, top, LittleEndian(0))
    ensures StringsHeld(now, low, addrs, words) && PointersHeld(now, top, addrs, 0) && Holds(now, top, LittleEndian(0))
  {
    StringsAboveAt(was, now, low, argv, addrs, words);
    PointersAbove(was, now, top, addrs);
    HoldsAbove(was, now, argv, top, LittleEndian(0));
  }

  /** Lays out the pointers and the three last words, on a word boundary below the strings. */
  method PushVector(page: array<byte>, base: int, addrs: seq<int>, ghost words: seq<seq<byte>>, ghost low: int)
    returns (esp: int)
    requires page.Length == PGSIZE && StringsHeld(page[..], low, addrs, words) && NoNuls(words)
    requires |addrs| <= MAX_CMD_ARGS_COUNT && InPage(low, 0) && base % 4 == 0 && base <= low
    requires STACK_BASE <= base - 4 * (|addrs| + 1) - 12
    modifies page
    ensures Image(page[..], esp, words) && esp == base - 4 * (|words| + 1) - 12
  {
    ghost var top, before := base - 4, page[..];
    esp := PushPointers(page, base, addrs);
    ghost var argv, vector := esp, page[..];
    StringsAboveAt(before, vector, low, base, addrs, words);
    esp := PushHeader(page, esp, |addrs|);
    HeaderKeepsVector(vector, page[..], low, argv, top, addrs, words);
    ImageOf(page[..], esp, argv, top, addrs, words, low);
  }

  /** Lays out everything below the strings. */
  method PushRest(page: array<byte>, low: int, addrs: seq<int>, ghost words: seq<seq<byte>>) returns (esp: int)
    requires page.Length == PGSIZE && StringsHeld(page[..], low, addrs, words) && NoNuls(words)
    requires |addrs| <= MAX_CMD_ARGS_COUNT && InPage(low, 0)
    requires STACK_BASE <= low / 4 * 4 - 4 * (|addrs| + 1) - 12
    modifies page
    ensures Image(page[..], esp, words) && esp == low / 4 * 4 - 4 * (|words| + 1) - 12
  {
    ghost var was := page[..];
    var base := Align(page, low);
    StringsAbove(was, page[..], low, addrs, words);
    esp := PushVector(page, base, addrs, words, low);
  }

  lemma RoundedDown(n: nat)
    ensures (PHYS_BASE - n) / 4 * 4 == PHYS_BASE - (n + 3) / 4 * 4
  {
  }

  /** Lays a command line out for a new process. Any line of at most 64 words whose image fits the page reads back as
      its words. */
  method BuildStack(line: array<byte>, page: array<byte>, ghost words: seq<seq<byte>>) returns (esp: int)
    requires page.Length == PGSIZE && page != line && HasNul(line[..], 0)
    requires words == Words(StringAt(line[..], 0), {SPACE})
    requires |words| <= MAX_CMD_ARGS_COUNT && Footprint(words) <= PGSIZE
    modifies line, page
    ensures Image(page[..], esp, words) && esp == PHYS_BASE - Footprint(words)
  {
    RoundedDown(StringBytes(words));
    var low, addrs := PushStrings(line, page, words);
    esp := PushRest(page, low, addrs, words);
  }
}
