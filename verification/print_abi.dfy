/**
 * packages/abi-to-sol/src/printAbi.ts: a JSON value is turned into a
 * stream of tokens (`AbiPrinter`), and the tokens are laid out greedily into
 * lines of at most `breakLength` characters (`TokenLayout`), a token never
 * being split.
 *
 * `JSON.stringify` is not modelled: a scalar carries its JSON text, and
 * object keys are rendered by the `stringify` parameter.
 */
module PrintAbi {
  import opened Common
  import AssocList

  /** A JSON value as `AbiPrinter.add` distinguishes them. */
  datatype Value =
    | Scalar(json: string)
    | Arr(items: seq<Value>)
    | Obj(entries: seq<(string, Value)>)

  /** `printAbi`'s default for `breakLength`. */
  const DefaultBreakLength: nat := 79

  // ---------------------------------------------------------------------
  // The token stream (AbiPrinter)
  // ---------------------------------------------------------------------

  /** `add(item)`: a scalar is one token; arrays and objects are bracketed. */
  function Tokens(v: Value, stringify: string -> string): seq<string>
    decreases v, 2
  {
    match v
    case Scalar(json) => [json]
    case Arr(items) => ["["] + ItemTokens(items, stringify) + ["]"]
    case Obj(entries) => ["{"] + EntryTokens(entries, stringify) + ["}"]
  }

  /** `addArray`'s body: the first item, then `,` before each further item. */
  function ItemTokens(items: seq<Value>, stringify: string -> string): seq<string>
    decreases items, 1
  {
    if items == [] then [] else Tokens(items[0], stringify) + CommaItems(items[1..], stringify)
  }

  function CommaItems(items: seq<Value>, stringify: string -> string): seq<string>
    decreases items, 0
  {
    if items == [] then [] else [","] + Tokens(items[0], stringify) + CommaItems(items[1..], stringify)
  }

  /** One `key`, `:`, value group. */
  function PairTokens(entry: (string, Value), stringify: string -> string): seq<string>
    decreases entry, 2
  {
    [stringify(entry.0), ":"] + Tokens(entry.1, stringify)
  }

  /** `addObject`'s body as evidently intended: the first entry, then `,` before each further entry. */
  function EntryTokens(entries: seq<(string, Value)>, stringify: string -> string): seq<string>
    decreases entries, 1
  {
    if entries == [] then [] else PairTokens(entries[0], stringify) + CommaEntries(entries[1..], stringify)
  }

  function CommaEntries(entries: seq<(string, Value)>, stringify: string -> string): seq<string>
    decreases entries, 0
  {
    if entries == [] then []
    else [","] + PairTokens(entries[0], stringify) + CommaEntries(entries[1..], stringify)
  }

  // ---------------------------------------------------------------------
  // The token stream as written
  // ---------------------------------------------------------------------

  /**
   * `add(item)` as written. It differs from `Tokens` only in `addObject`:
   * after the first entry, the loop runs over all of `Object.entries(object)`
   * rather than the remaining ones, so every object, at every depth, emits
   * its first entry twice.
   */
  function TokensAsWritten(v: Value, stringify: string -> string): seq<string>
    decreases v, 2
  {
    match v
    case Scalar(json) => [json]
    case Arr(items) => ["["] + ItemTokensAsWritten(items, stringify) + ["]"]
    case Obj(entries) =>
      ["{"]
      + (if entries == [] then []
         else PairTokensAsWritten(entries[0], stringify) + CommaEntriesAsWritten(entries, stringify))
      + ["}"]
  }

  function ItemTokensAsWritten(items: seq<Value>, stringify: string -> string): seq<string>
    decreases items, 1
  {
    if items == [] then [] else TokensAsWritten(items[0], stringify) + CommaItemsAsWritten(items[1..], stringify)
  }

  function CommaItemsAsWritten(items: seq<Value>, stringify: string -> string): seq<string>
    decreases items, 0
  {
    if items == [] then [] else [","] + TokensAsWritten(items[0], stringify) + CommaItemsAsWritten(items[1..], stringify)
  }

  function PairTokensAsWritten(entry: (string, Value), stringify: string -> string): seq<string>
    decreases entry, 2
  {
    [stringify(entry.0), ":"] + TokensAsWritten(entry.1, stringify)
  }

  function CommaEntriesAsWritten(entries: seq<(string, Value)>, stringify: string -> string): seq<string>
    decreases entries, 0
  {
    if entries == [] then []
    else [","] + PairTokensAsWritten(entries[0], stringify) + CommaEntriesAsWritten(entries[1..], stringify)
  }

  /** Whether a value holds an object with at least one entry, at any depth. */
  predicate HasNonEmptyObject(v: Value)
    decreases v
  {
    match v
    case Scalar(_) => false
    case Arr(items) => exists i :: 0 <= i < |items| && HasNonEmptyObject(items[i])
    case Obj(entries) => entries != []
  }

  // ---------------------------------------------------------------------
  // The reference rendering: compact JSON text
  // ---------------------------------------------------------------------

  /** The compact JSON text of a value, independent of the token stream. */
  function Compact(v: Value, stringify: string -> string): string
    decreases v, 1
  {
    match v
    case Scalar(json) => json
    case Arr(items) => "[" + Join(",", CompactItems(items, stringify)) + "]"
    case Obj(entries) => "{" + Join(",", CompactEntries(entries, stringify)) + "}"
  }

  function CompactItems(items: seq<Value>, stringify: string -> string): (r: seq<string>)
    ensures |r| == |items|
    decreases items, 0
  {
    if items == [] then [] else [Compact(items[0], stringify)] + CompactItems(items[1..], stringify)
  }

  function CompactEntries(entries: seq<(string, Value)>, stringify: string -> string): (r: seq<string>)
    ensures |r| == |entries|
    decreases entries, 0
  {
    if entries == [] then []
    else [CompactPair(entries[0], stringify)] + CompactEntries(entries[1..], stringify)
  }

  /** One `key:value` member of a compact object. */
  function CompactPair(entry: (string, Value), stringify: string -> string): string
    decreases entry, 2
  {
    stringify(entry.0) + ":" + Compact(entry.1, stringify)
  }

  /** Joining a non-empty list: the head, then the separator before the rest. */
  lemma JoinCons(sep: string, s: string, rest: seq<string>)
    ensures Join(sep, [s] + rest) == if rest == [] then s else s + sep + Join(sep, rest)
  {
    assert ([s] + rest)[1..] == rest;
  }

  /** The tokens, run together, are exactly the compact JSON text. */
  lemma {:induction false} TokensCompact(v: Value, stringify: string -> string)
    ensures Concat(Tokens(v, stringify)) == Compact(v, stringify)
    decreases v, 3
  {
    match v
    case Scalar(json) =>
      assert Concat([json]) == json + Concat([]);
    case Arr(items) =>
      ItemTokensCompact(items, stringify);
      ConcatAppend(["["], ItemTokens(items, stringify));
      ConcatAppend(["["] + ItemTokens(items, stringify), ["]"]);
    case Obj(entries) =>
      EntryTokensCompact(entries, stringify);
      ConcatAppend(["{"], EntryTokens(entries, stringify));
      ConcatAppend(["{"] + EntryTokens(entries, stringify), ["}"]);
  }

  lemma {:induction false} ItemTokensCompact(items: seq<Value>, stringify: string -> string)
    ensures Concat(ItemTokens(items, stringify)) == Join(",", CompactItems(items, stringify))
    decreases items, 2
  {
    if items != [] {
      TokensCompact(items[0], stringify);
      CommaItemsCompact(items[1..], stringify);
      ConcatAppend(Tokens(items[0], stringify), CommaItems(items[1..], stringify));
      JoinCons(",", Compact(items[0], stringify), CompactItems(items[1..], stringify));
    }
  }

  lemma {:induction false} CommaItemsCompact(items: seq<Value>, stringify: string -> string)
    ensures Concat(CommaItems(items, stringify)) ==
      if items == [] then "" else "," + Join(",", CompactItems(items, stringify))
    decreases items, 1
  {
    if items != [] {
      TokensCompact(items[0], stringify);
      CommaItemsCompact(items[1..], stringify);
      ConcatAppend([","], Tokens(items[0], stringify));
      ConcatAppend([","] + Tokens(items[0], stringify), CommaItems(items[1..], stringify));
      JoinCons(",", Compact(items[0], stringify), CompactItems(items[1..], stringify));
    }
  }

  lemma {:induction false} PairTokensCompact(entry: (string, Value), stringify: string -> string)
    ensures Concat(PairTokens(entry, stringify)) == CompactPair(entry, stringify)
    decreases entry, 3
  {
    TokensCompact(entry.1, stringify);
    ConcatAppend([stringify(entry.0), ":"], Tokens(entry.1, stringify));
    assert Concat([stringify(entry.0), ":"]) == stringify(entry.0) + ":" by {
      assert [stringify(entry.0), ":"][1..] == [":"];
    }
  }

  lemma {:induction false} EntryTokensCompact(entries: seq<(string, Value)>, stringify: string -> string)
    ensures Concat(EntryTokens(entries, stringify)) == Join(",", CompactEntries(entries, stringify))
    decreases entries, 2
  {
    if entries != [] {
      PairTokensCompact(entries[0], stringify);
      CommaEntriesCompact(entries[1..], stringify);
      ConcatAppend(PairTokens(entries[0], stringify), CommaEntries(entries[1..], stringify));
      JoinCons(",", CompactPair(entries[0], stringify), CompactEntries(entries[1..], stringify));
    }
  }

  lemma {:induction false} CommaEntriesCompact(entries: seq<(string, Value)>, stringify: string -> string)
    ensures Concat(CommaEntries(entries, stringify)) ==
      if entries == [] then "" else "," + Join(",", CompactEntries(entries, stringify))
    decreases entries, 1
  {
    if entries != [] {
      PairTokensCompact(entries[0], stringify);
      CommaEntriesCompact(entries[1..], stringify);
      ConcatAppend([","], PairTokens(entries[0], stringify));
      ConcatAppend([","] + PairTokens(entries[0], stringify), CommaEntries(entries[1..], stringify));
      JoinCons(",", CompactPair(entries[0], stringify), CompactEntries(entries[1..], stringify));
    }
  }

  /**
   * The as-written stream is never shorter than the intended one, is longer
   * exactly when the value holds a non-empty object, and is the same stream
   * otherwise.
   */
  lemma {:induction false} AsWrittenLonger(v: Value, stringify: string -> string)
    ensures |TokensAsWritten(v, stringify)| >= |Tokens(v, stringify)|
    ensures HasNonEmptyObject(v) ==> |TokensAsWritten(v, stringify)| > |Tokens(v, stringify)|
    ensures !HasNonEmptyObject(v) ==> TokensAsWritten(v, stringify) == Tokens(v, stringify)
    decreases v, 3
  {
    match v
    case Scalar(_) =>
    case Arr(items) =>
      ItemsAsWrittenLonger(items, stringify);
    case Obj(entries) =>
      if entries != [] {
        PairAsWrittenLonger(entries[0], stringify);
        CommaEntriesAsWrittenLonger(entries[1..], stringify);
        assert CommaEntriesAsWritten(entries, stringify) ==
          [","] + PairTokensAsWritten(entries[0], stringify) + CommaEntriesAsWritten(entries[1..], stringify);
      }
  }

  lemma {:induction false} ItemsAsWrittenLonger(items: seq<Value>, stringify: string -> string)
    ensures |ItemTokensAsWritten(items, stringify)| >= |ItemTokens(items, stringify)|
    ensures (exists i :: 0 <= i < |items| && HasNonEmptyObject(items[i])) ==>
      |ItemTokensAsWritten(items, stringify)| > |ItemTokens(items, stringify)|
    ensures (forall i :: 0 <= i < |items| ==> !HasNonEmptyObject(items[i])) ==>
      ItemTokensAsWritten(items, stringify) == ItemTokens(items, stringify)
    decreases items, 2
  {
    if items != [] {
      AsWrittenLonger(items[0], stringify);
      CommaItemsAsWrittenLonger(items[1..], stringify);
      assert forall i :: 1 <= i < |items| ==> items[i] == items[1..][i - 1];
    }
  }

  lemma {:induction false} CommaItemsAsWrittenLonger(items: seq<Value>, stringify: string -> string)
    ensures |CommaItemsAsWritten(items, stringify)| >= |CommaItems(items, stringify)|
    ensures (exists i :: 0 <= i < |items| && HasNonEmptyObject(items[i])) ==>
      |CommaItemsAsWritten(items, stringify)| > |CommaItems(items, stringify)|
    ensures (forall i :: 0 <= i < |items| ==> !HasNonEmptyObject(items[i])) ==>
      CommaItemsAsWritten(items, stringify) == CommaItems(items, stringify)
    decreases items, 1
  {
    if items != [] {
      AsWrittenLonger(items[0], stringify);
      CommaItemsAsWrittenLonger(items[1..], stringify);
      assert forall i :: 1 <= i < |items| ==> items[i] == items[1..][i - 1];
    }
  }

  lemma {:induction false} PairAsWrittenLonger(entry: (string, Value), stringify: string -> string)
    ensures |PairTokensAsWritten(entry, stringify)| >= |PairTokens(entry, stringify)|
    ensures !HasNonEmptyObject(entry.1) ==> PairTokensAsWritten(entry, stringify) == PairTokens(entry, stringify)
    decreases entry, 3
  {
    AsWrittenLonger(entry.1, stringify);
  }

  lemma {:induction false} CommaEntriesAsWrittenLonger(entries: seq<(string, Value)>, stringify: string -> string)
    ensures |CommaEntriesAsWritten(entries, stringify)| >= |CommaEntries(entries, stringify)|
    ensures (forall i :: 0 <= i < |entries| ==> !HasNonEmptyObject(entries[i].1)) ==>
      CommaEntriesAsWritten(entries, stringify) == CommaEntries(entries, stringify)
    decreases entries, 1
  {
    if entries != [] {
      PairAsWrittenLonger(entries[0], stringify);
      CommaEntriesAsWrittenLonger(entries[1..], stringify);
      assert forall i :: 1 <= i < |entries| ==> entries[i] == entries[1..][i - 1];
    }
  }

  /** The as-written printer agrees with the intended one exactly on values without a non-empty object. */
  lemma AsWrittenAgreesIff(v: Value, stringify: string -> string)
    ensures TokensAsWritten(v, stringify) == Tokens(v, stringify) <==> !HasNonEmptyObject(v)
  {
    AsWrittenLonger(v, stringify);
  }

  /** A non-empty object inside an array is printed differently as written: the repetition is not confined to the outermost object. */
  lemma NestedObjectDiffers(entries: seq<(string, Value)>, stringify: string -> string)
    requires entries != []
    ensures TokensAsWritten(Arr([Obj(entries)]), stringify) != Tokens(Arr([Obj(entries)]), stringify)
  {
    assert HasNonEmptyObject(Arr([Obj(entries)])) by {
      assert [Obj(entries)][0] == Obj(entries);
    }
    AsWrittenAgreesIff(Arr([Obj(entries)]), stringify);
  }

  /**
   * An object whose values hold no non-empty object: as written, its tokens
   * are the intended ones with the first key-value group and a `,` inserted
   * after `{`.
   */
  lemma ObjectAsWrittenRepeatsFirst(entries: seq<(string, Value)>, stringify: string -> string)
    requires entries != []
    requires forall i :: 0 <= i < |entries| ==> !HasNonEmptyObject(entries[i].1)
    ensures TokensAsWritten(Obj(entries), stringify) ==
      ["{"] + PairTokens(entries[0], stringify) + [","] + Tokens(Obj(entries), stringify)[1..]
  {
    var first := PairTokens(entries[0], stringify);
    var rest := CommaEntries(entries[1..], stringify);
    AsWrittenSameEntries(entries, stringify);
    assert CommaEntries(entries, stringify) == [","] + first + rest;
    assert Tokens(Obj(entries), stringify) == ["{"] + (first + rest) + ["}"];
    RepeatShape(first, rest);
  }

  /** Over values without a non-empty object, the as-written object stream is built from the intended pieces. */
  lemma AsWrittenSameEntries(entries: seq<(string, Value)>, stringify: string -> string)
    requires entries != []
    requires forall i :: 0 <= i < |entries| ==> !HasNonEmptyObject(entries[i].1)
    ensures TokensAsWritten(Obj(entries), stringify) ==
      ["{"] + PairTokens(entries[0], stringify) + CommaEntries(entries, stringify) + ["}"]
  {
    SameFirstPair(entries, stringify);
    SameEntryLoop(entries, stringify);
    ObjectAsWrittenUnfold(entries, stringify);
  }

  lemma SameFirstPair(entries: seq<(string, Value)>, stringify: string -> string)
    requires entries != []
    requires forall i :: 0 <= i < |entries| ==> !HasNonEmptyObject(entries[i].1)
    ensures PairTokensAsWritten(entries[0], stringify) == PairTokens(entries[0], stringify)
  {
    PairAsWrittenLonger(entries[0], stringify);
  }

  lemma SameEntryLoop(entries: seq<(string, Value)>, stringify: string -> string)
    requires forall i :: 0 <= i < |entries| ==> !HasNonEmptyObject(entries[i].1)
    ensures CommaEntriesAsWritten(entries, stringify) == CommaEntries(entries, stringify)
  {
    CommaEntriesAsWrittenLonger(entries, stringify);
  }

  /** A non-empty object, as written: `{`, the first group, the loop over every entry, `}`. */
  lemma ObjectAsWrittenUnfold(entries: seq<(string, Value)>, stringify: string -> string)
    requires entries != []
    ensures TokensAsWritten(Obj(entries), stringify) ==
      ["{"] + PairTokensAsWritten(entries[0], stringify) + CommaEntriesAsWritten(entries, stringify) + ["}"]
  {
  }

  lemma RepeatShape(first: seq<string>, rest: seq<string>)
    ensures ["{"] + first + ([","] + first + rest) + ["}"] == ["{"] + first + [","] + (["{"] + (first + rest) + ["}"])[1..]
  {
    assert (["{"] + (first + rest) + ["}"])[1..] == first + rest + ["}"];
  }

  /** Without an entry, both forms of `addObject` emit `{` `}`. */
  lemma EmptyObjectTokens(stringify: string -> string)
    ensures Tokens(Obj([]), stringify) == ["{", "}"]
    ensures TokensAsWritten(Obj([]), stringify) == ["{", "}"]
  {
  }

  // ---------------------------------------------------------------------
  // The greedy layout (TokenLayout)
  // ---------------------------------------------------------------------

  /** The pushed lines and the line being filled. */
  datatype Layout = Layout(lines: seq<string>, buffer: string)

  /** A fresh layout: no line pushed, an empty buffer. */
  function EmptyLayout(): Layout {
    Layout([], "")
  }

  /**
   * `TokenLayout.add(token)`: when buffer and token together would exceed
   * `breakLength`, the buffer is pushed as a line and the token starts the
   * next one; otherwise the token is appended to the buffer.
   */
  function Add(l: Layout, token: string, breakLength: nat): (r: Layout)
    ensures |r.lines| == |l.lines| + 1 <==> |l.buffer + token| > breakLength
    ensures |r.lines| == |l.lines| || |r.lines| == |l.lines| + 1
    ensures |r.lines| == |l.lines| + 1 ==> r.lines == l.lines + [l.buffer] && r.buffer == token
    ensures |r.lines| == |l.lines| ==> r.lines == l.lines && r.buffer == l.buffer + token
    ensures r.lines[..|l.lines|] == l.lines
    ensures Concat(r.lines) + r.buffer == Concat(l.lines) + l.buffer + token
    ensures |r.buffer| <= breakLength || r.buffer == token
  {
    var attempt := l.buffer + token;
    if |attempt| > breakLength then
      ConcatAppend(l.lines, [l.buffer]);
      assert Concat([l.buffer]) == l.buffer + Concat([]);
      Layout(l.lines + [l.buffer], token)
    else
      Layout(l.lines, attempt)
  }

  /** Adding the tokens one by one. */
  function AddAll(l: Layout, tokens: seq<string>, breakLength: nat): (r: Layout)
    ensures |l.lines| <= |r.lines| && r.lines[..|l.lines|] == l.lines
    ensures Concat(r.lines) + r.buffer == Concat(l.lines) + l.buffer + Concat(tokens)
    decreases |tokens|
  {
    if tokens == [] then l
    else
      var r := AddAll(Add(l, tokens[0], breakLength), tokens[1..], breakLength);
      assert Concat(tokens) == tokens[0] + Concat(tokens[1..]);
      r
  }

  /** `TokenLayout.read()`: the lines, then the buffer, joined by newlines. */
  function Read(l: Layout): string {
    Join("\n", l.lines + [l.buffer])
  }

  /** `printAbi`, with the evidently intended object printer. */
  function Print(v: Value, stringify: string -> string, breakLength: nat): string {
    Read(AddAll(EmptyLayout(), Tokens(v, stringify), breakLength))
  }

  /** `printAbi({abi})` without a `breakLength`. */
  function PrintDefault(v: Value, stringify: string -> string): string {
    Print(v, stringify, DefaultBreakLength)
  }

  /** `printAbi` exactly as the text has it, with the as-written object printer. */
  function PrintAsWritten(v: Value, stringify: string -> string, breakLength: nat): string {
    Read(AddAll(EmptyLayout(), TokensAsWritten(v, stringify), breakLength))
  }

  /** The two printers print a value without a non-empty object identically, whatever the break length. */
  lemma PrintAsWrittenAgrees(v: Value, stringify: string -> string, breakLength: nat)
    ensures !HasNonEmptyObject(v) ==> PrintAsWritten(v, stringify, breakLength) == Print(v, stringify, breakLength)
  {
    AsWrittenLonger(v, stringify);
  }

  /** Nothing is lost, reordered or split: run together, the lines and the buffer are the compact JSON text. */
  lemma LayoutKeepsText(v: Value, stringify: string -> string, breakLength: nat)
    ensures var l := AddAll(EmptyLayout(), Tokens(v, stringify), breakLength);
      Concat(l.lines) + l.buffer == Compact(v, stringify)
    ensures var l := AddAll(EmptyLayout(), Tokens(v, stringify), breakLength);
      exists groups, rest :: WholeTokens(l, Tokens(v, stringify), groups, rest)
  {
    TokensCompact(v, stringify);
    LayoutSplitsNothing(Tokens(v, stringify), breakLength);
  }

  /**
   * A layout of the tokens `ts` cuts only between tokens: the pushed lines
   * are runs of whole tokens (`groups`), the buffer is the run that is left
   * (`rest`), and the runs in order are exactly `ts`.
   */
  predicate WholeTokens(l: Layout, ts: seq<string>, groups: seq<seq<string>>, rest: seq<string>) {
    && |groups| == |l.lines|
    && AssocList.Flatten(groups) + rest == ts
    && (forall j :: 0 <= j < |groups| ==> l.lines[j] == Concat(groups[j]))
    && l.buffer == Concat(rest)
  }

  /** Adding a token either closes the buffer's run as a line and starts a new run, or extends the run. */
  lemma AddWholeTokens(l: Layout, done: seq<string>, groups: seq<seq<string>>, rest: seq<string>, token: string, breakLength: nat)
    requires WholeTokens(l, done, groups, rest)
    ensures var r := Add(l, token, breakLength);
      if |r.lines| == |l.lines| + 1 then WholeTokens(r, done + [token], groups + [rest], [token])
      else WholeTokens(r, done + [token], groups, rest + [token])
  {
    var r := Add(l, token, breakLength);
    assert Concat([token]) == token + Concat([]);
    if |r.lines| == |l.lines| + 1 {
      AssocList.FlattenConcat(groups, [rest]);
      assert AssocList.Flatten([rest]) == rest + AssocList.Flatten([]);
      assert forall j :: 0 <= j < |groups| ==> r.lines[j] == l.lines[j];
    } else {
      ConcatAppend(rest, [token]);
    }
  }

  /** Adding tokens keeps the layout a cut of the tokens between whole tokens; the cut is returned. */
  lemma {:induction false} AddAllWholeTokens(l: Layout, done: seq<string>, groups: seq<seq<string>>, rest: seq<string>, ts: seq<string>, breakLength: nat)
    returns (groups': seq<seq<string>>, rest': seq<string>)
    requires WholeTokens(l, done, groups, rest)
    ensures WholeTokens(AddAll(l, ts, breakLength), done + ts, groups', rest')
    decreases |ts|
  {
    if ts == [] {
      assert done + ts == done;
      groups', rest' := groups, rest;
    } else {
      var l' := Add(l, ts[0], breakLength);
      AddWholeTokens(l, done, groups, rest, ts[0], breakLength);
      if |l'.lines| == |l.lines| + 1 {
        groups', rest' := AddAllWholeTokens(l', done + [ts[0]], groups + [rest], [ts[0]], ts[1..], breakLength);
      } else {
        groups', rest' := AddAllWholeTokens(l', done + [ts[0]], groups, rest + [ts[0]], ts[1..], breakLength);
      }
      assert done + [ts[0]] + ts[1..] == done + ts;
      assert AddAll(l, ts, breakLength) == AddAll(l', ts[1..], breakLength);
    }
  }

  /** The greedy layout splits no token: it only cuts between tokens. */
  lemma LayoutSplitsNothing(ts: seq<string>, breakLength: nat)
    ensures exists groups, rest :: WholeTokens(AddAll(EmptyLayout(), ts, breakLength), ts, groups, rest)
  {
    assert WholeTokens(EmptyLayout(), [], [], []);
    var groups, rest := AddAllWholeTokens(EmptyLayout(), [], [], [], ts, breakLength);
    assert [] + ts == ts;
  }

  // ---------------------------------------------------------------------
  // Line lengths and line breaks
  // ---------------------------------------------------------------------

  /** Every pushed line and the buffer either fit in `breakLength` or are one of the given tokens on their own. */
  predicate Fits(l: Layout, breakLength: nat, tokens: seq<string>) {
    forall x :: x in l.lines + [l.buffer] ==> |x| <= breakLength || x in tokens
  }

  lemma AddFits(l: Layout, token: string, breakLength: nat, tokens: seq<string>)
    requires Fits(l, breakLength, tokens) && token in tokens
    ensures Fits(Add(l, token, breakLength), breakLength, tokens)
  {
    var r := Add(l, token, breakLength);
    forall x | x in r.lines + [r.buffer] ensures |x| <= breakLength || x in tokens {
      if x in r.lines && |r.lines| == |l.lines| + 1 {
        var i :| 0 <= i < |r.lines| && r.lines[i] == x;
        if i < |l.lines| {
          assert x == l.lines[i];
          assert x in l.lines + [l.buffer];
        } else {
          assert x == l.buffer;
          assert x in l.lines + [l.buffer];
        }
      } else if x in r.lines {
        assert r.lines == l.lines;
        assert x in l.lines + [l.buffer];
      }
    }
  }

  /** The length bound holds after every `add`, for lines and buffer alike. */
  lemma {:induction false} AddAllFits(l: Layout, ts: seq<string>, breakLength: nat, tokens: seq<string>)
    requires Fits(l, breakLength, tokens)
    requires forall i :: 0 <= i < |ts| ==> ts[i] in tokens
    ensures Fits(AddAll(l, ts, breakLength), breakLength, tokens)
    decreases |ts|
  {
    if ts != [] {
      AddFits(l, ts[0], breakLength, tokens);
      AddAllFits(Add(l, ts[0], breakLength), ts[1..], breakLength, tokens);
    }
  }

  /** Every printed line is at most `breakLength` long unless it is a single token that alone exceeds it. */
  lemma PrintedLinesFit(v: Value, stringify: string -> string, breakLength: nat)
    ensures Fits(AddAll(EmptyLayout(), Tokens(v, stringify), breakLength), breakLength, Tokens(v, stringify))
  {
    AddAllFits(EmptyLayout(), Tokens(v, stringify), breakLength, Tokens(v, stringify));
  }

  /** An oversized first token pushes an empty first line. */
  lemma OversizedFirstToken(ts: seq<string>, breakLength: nat)
    requires ts != [] && |ts[0]| > breakLength
    ensures |AddAll(EmptyLayout(), ts, breakLength).lines| >= 1
    ensures AddAll(EmptyLayout(), ts, breakLength).lines[0] == ""
  {
    assert Add(EmptyLayout(), ts[0], breakLength) == Layout([""], ts[0]);
  }

  /** The number of times `c` occurs in `s`. */
  function Count(s: string, c: char): nat {
    if s == [] then 0 else (if s[0] == c then 1 else 0) + Count(s[1..], c)
  }

  lemma {:induction false} CountConcat(a: string, b: string, c: char)
    ensures Count(a + b, c) == Count(a, c) + Count(b, c)
  {
    if a != [] {
      assert (a + b)[1..] == a[1..] + b;
      CountConcat(a[1..], b, c);
    } else {
      assert a + b == b;
    }
  }

  lemma {:induction false} CountAbsent(s: string, c: char)
    requires c !in s
    ensures Count(s, c) == 0
  {
    if s != [] {
      CountAbsent(s[1..], c);
    }
  }

  /** Joining newline-free parts with `"\n"` puts one newline between each two parts. */
  lemma {:induction false} JoinNewlines(ss: seq<string>)
    requires ss != []
    requires forall i :: 0 <= i < |ss| ==> '\n' !in ss[i]
    ensures Count(Join("\n", ss), '\n') == |ss| - 1
  {
    CountAbsent(ss[0], '\n');
    if |ss| > 1 {
      JoinNewlines(ss[1..]);
      CountConcat(ss[0], "\n", '\n');
      CountConcat(ss[0] + "\n", Join("\n", ss[1..]), '\n');
    }
  }

  /** No line and no buffer contains a newline. */
  predicate NewlineFree(l: Layout) {
    forall x :: x in l.lines + [l.buffer] ==> '\n' !in x
  }

  lemma {:induction false} AddAllNewlineFree(l: Layout, ts: seq<string>, breakLength: nat)
    requires NewlineFree(l)
    requires forall i :: 0 <= i < |ts| ==> '\n' !in ts[i]
    ensures NewlineFree(AddAll(l, ts, breakLength))
    decreases |ts|
  {
    if ts != [] {
      var r := Add(l, ts[0], breakLength);
      forall x | x in r.lines + [r.buffer] ensures '\n' !in x {
        if x == r.buffer && x != ts[0] {
          assert x == l.buffer + ts[0];
          assert l.buffer in l.lines + [l.buffer];
        } else if x != r.buffer || x != ts[0] {
          var i :| 0 <= i < |r.lines| && r.lines[i] == x;
          if i < |l.lines| {
            assert x == l.lines[i];
          } else {
            assert x == l.buffer;
          }
          assert x in l.lines + [l.buffer];
        }
      }
      AddAllNewlineFree(r, ts[1..], breakLength);
    }
  }

  /** With newline-free tokens, the output has exactly one line break per pushed line. */
  lemma PrintedLineBreaks(v: Value, stringify: string -> string, breakLength: nat)
    requires forall i :: 0 <= i < |Tokens(v, stringify)| ==> '\n' !in Tokens(v, stringify)[i]
    ensures var l := AddAll(EmptyLayout(), Tokens(v, stringify), breakLength);
      Count(Print(v, stringify, breakLength), '\n') == |l.lines|
  {
    var l := AddAll(EmptyLayout(), Tokens(v, stringify), breakLength);
    AddAllNewlineFree(EmptyLayout(), Tokens(v, stringify), breakLength);
    var parts := l.lines + [l.buffer];
    forall i | 0 <= i < |parts| ensures '\n' !in parts[i] {
      assert parts[i] in parts;
    }
    JoinNewlines(parts);
  }

  // ---------------------------------------------------------------------
  // The object printer as written
  // ---------------------------------------------------------------------

  /** `JSON.stringify` for keys without characters that need escaping. */
  function Quote(key: string): string {
    "\"" + key + "\""
  }

  /**
   * An object whose values hold no non-empty object, run together as
   * written: `{`, the first member, `,`, then every member, `}`.
   */
  lemma ObjectAsWrittenCompact(entries: seq<(string, Value)>, stringify: string -> string)
    requires entries != []
    requires forall i :: 0 <= i < |entries| ==> !HasNonEmptyObject(entries[i].1)
    ensures Concat(TokensAsWritten(Obj(entries), stringify)) ==
      "{" + CompactPair(entries[0], stringify) + "," + Join(",", CompactEntries(entries, stringify)) + "}"
  {
    AsWrittenSameEntries(entries, stringify);
    DoubledFirstCompact(entries, stringify);
  }

  /** `{`, the first group, `,` before every group, `}`, run together. */
  lemma DoubledFirstCompact(entries: seq<(string, Value)>, stringify: string -> string)
    requires entries != []
    ensures Concat(["{"] + PairTokens(entries[0], stringify) + CommaEntries(entries, stringify) + ["}"]) ==
      "{" + CompactPair(entries[0], stringify) + "," + Join(",", CompactEntries(entries, stringify)) + "}"
  {
    var pair, joined := CompactPair(entries[0], stringify), Join(",", CompactEntries(entries, stringify));
    var first, rest := PairTokens(entries[0], stringify), CommaEntries(entries, stringify);
    PairTokensCompact(entries[0], stringify);
    CommaEntriesCompact(entries, stringify);
    assert ["{"] + first + rest + ["}"] == ["{"] + (first + rest) + ["}"];
    BracketConcat("{", first + rest, "}");
    ConcatAppend(first, rest);
    assert "{" + (pair + ("," + joined)) + "}" == "{" + pair + "," + joined + "}";
  }

  /**
   * A one-entry object, run together as written: its member twice, the
   * value itself printed as written.
   */
  lemma SingleEntryAsWritten(key: string, w: Value, stringify: string -> string)
    ensures var member := stringify(key) + ":" + Concat(TokensAsWritten(w, stringify));
      Concat(TokensAsWritten(Obj([(key, w)]), stringify)) == "{" + member + "," + member + "}"
  {
    var entries := [(key, w)];
    var pair := PairTokensAsWritten(entries[0], stringify);
    var member := stringify(key) + ":" + Concat(TokensAsWritten(w, stringify));
    assert Concat(pair) == member by {
      ConcatAppend([stringify(key), ":"], TokensAsWritten(w, stringify));
      assert Concat([stringify(key), ":"]) == stringify(key) + ":" by {
        assert [stringify(key), ":"][1..] == [":"];
      }
    }
    assert entries[1..] == [];
    assert CommaEntriesAsWritten(entries, stringify) == [","] + pair;
    assert Concat([","] + pair) == "," + member by {
      ConcatAppend([","], pair);
      assert Concat([","]) == "," + Concat([]);
    }
    ConcatAppend(pair, [","] + pair);
    BracketConcat("{", pair + ([","] + pair), "}");
    assert TokensAsWritten(Obj(entries), stringify) == ["{"] + (pair + ([","] + pair)) + ["}"];
  }

  /** Tokens between an opening and a closing bracket run together to the inner text between them. */
  lemma BracketConcat(open: string, inner: seq<string>, close: string)
    ensures Concat([open] + inner + [close]) == open + Concat(inner) + close
  {
    assert Concat([open]) == open by { assert Concat([open]) == open + Concat([]); }
    assert Concat([close]) == close by { assert Concat([close]) == close + Concat([]); }
    ConcatAppend([open], inner);
    ConcatAppend([open] + inner, [close]);
  }

  /** `{"a": 1}` comes out as `{"a":1,"a":1}` as written, and as `{"a":1}` when intended. */
  lemma ObjectAsWrittenExample()
    ensures Concat(TokensAsWritten(Obj([("a", Scalar("1"))]), Quote)) == "{\"a\":1,\"a\":1}"
    ensures Concat(Tokens(Obj([("a", Scalar("1"))]), Quote)) == "{\"a\":1}"
  {
    var entries := [("a", Scalar("1"))];
    var member := "\"a\":1";
    assert CompactPair(entries[0], Quote) == member;
    assert CompactEntries(entries, Quote) == [member];
    assert Join(",", [member]) == member;
    SingleEntryAsWritten("a", Scalar("1"), Quote);
    ScalarConcat("1", Quote);
    TokensCompact(Obj(entries), Quote);
  }

  /** A scalar's one token runs together to its JSON text. */
  lemma ScalarConcat(json: string, stringify: string -> string)
    ensures Concat(TokensAsWritten(Scalar(json), stringify)) == json
    ensures Concat(Tokens(Scalar(json), stringify)) == json
  {
    assert Concat([json]) == json + Concat([]);
  }

  /**
   * The repetition happens at every depth: `[{k: x}]` comes out as
   * `[{k:x,k:x}]` as written, and as `[{k:x}]` when intended.
   */
  lemma NestedAsWrittenExample(key: string, json: string, stringify: string -> string)
    ensures var member := stringify(key) + ":" + json;
      && Concat(TokensAsWritten(Arr([Obj([(key, Scalar(json))])]), stringify)) == "[" + ("{" + member + "," + member + "}") + "]"
      && Concat(Tokens(Arr([Obj([(key, Scalar(json))])]), stringify)) == "[" + ("{" + member + "}") + "]"
  {
    var o := Obj([(key, Scalar(json))]);
    var member := stringify(key) + ":" + json;
    ScalarConcat(json, stringify);
    SingleEntryAsWritten(key, Scalar(json), stringify);
    assert ItemTokensAsWritten([o], stringify) == TokensAsWritten(o, stringify);
    BracketConcat("[", TokensAsWritten(o, stringify), "]");
    assert Concat(Tokens(o, stringify)) == "{" + member + "}" by {
      TokensCompact(o, stringify);
      assert [(key, Scalar(json))][1..] == [];
      assert CompactPair((key, Scalar(json)), stringify) == member;
      assert CompactEntries([(key, Scalar(json))], stringify) == [member];
      assert Join(",", [member]) == member;
    }
    assert ItemTokens([o], stringify) == Tokens(o, stringify);
    BracketConcat("[", Tokens(o, stringify), "]");
  }

  /**
   * Nested objects compound: `{k: {l: x}}` comes out as
   * `{k:{l:x,l:x},k:{l:x,l:x}}` as written.
   */
  lemma DeepAsWrittenExample(outer: string, inner: string, json: string, stringify: string -> string)
    ensures var b := stringify(inner) + ":" + json;
      var a := stringify(outer) + ":" + ("{" + b + "," + b + "}");
      Concat(TokensAsWritten(Obj([(outer, Obj([(inner, Scalar(json))]))]), stringify)) == "{" + a + "," + a + "}"
  {
    ScalarConcat(json, stringify);
    SingleEntryAsWritten(inner, Scalar(json), stringify);
    SingleEntryAsWritten(outer, Obj([(inner, Scalar(json))]), stringify);
  }
}
