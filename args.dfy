// The text form of the argument maps of exchanges and queues: "key=value&" per
// entry (exchange::set_args/get_args in mqserver/exchange.hpp; msg_queue in
// mqserver/queue.hpp has identical copies).
module Args {
  import opened Wrappers
  import opened Helper

  type ArgMap = map<string, string>

  // ---------------------------------------------------------------------------
  // set_args
  // ---------------------------------------------------------------------------

  /** One piece "key=value": the key is what precedes the first '=', the value what
      follows it.  Without '=', `substr(0, npos)` and `substr(npos + 1)` both give
      the whole piece, so it is key and value at once. */
  function ParsePair(piece: string): (kv: (string, string))
    ensures '=' !in piece ==> kv == (piece, piece)
    ensures '=' in piece ==> '=' !in kv.0 && piece == kv.0 + "=" + kv.1
  {
    match FindFrom(piece, '=', 0)
    case None =>
      assert piece[0..] == piece;
      (piece, piece)
    case Some(pos) =>
      assert piece[0..pos] == piece[..pos];
      assert piece == piece[..pos] + "=" + piece[pos + 1..];
      (piece[..pos], piece[pos + 1..])
  }

  /** unordered_map::insert: an existing key keeps its value. */
  function InsertPair(args: ArgMap, piece: string): ArgMap
  {
    var kv := ParsePair(piece);
    if kv.0 in args then args else args[kv.0 := kv.1]
  }

  /** The pieces inserted one after another, as written. */
  function InsertPieces(args: ArgMap, pieces: seq<string>): ArgMap
    decreases |pieces|
  {
    if |pieces| == 0 then args
    else InsertPair(InsertPieces(args, pieces[..|pieces| - 1]), pieces[|pieces| - 1])
  }

  /** The pieces inserted one after another, skipping empty pieces. */
  function InsertNonEmptyPieces(args: ArgMap, pieces: seq<string>): ArgMap
    decreases |pieces|
  {
    if |pieces| == 0 then args
    else
      var before := InsertNonEmptyPieces(args, pieces[..|pieces| - 1]);
      if pieces[|pieces| - 1] == "" then before else InsertPair(before, pieces[|pieces| - 1])
  }

  /** exchange::set_args as written: split at '&' and insert every piece. */
  method SetArgsAsWritten(args: ArgMap, text: string) returns (result: ArgMap)
    ensures result == InsertPieces(args, Split(text, {'&'}))
  {
    var pieces, _ := SplitInto(text, {'&'});
    result := args;
    var i := 0;
    while i < |pieces|
      invariant i <= |pieces|
      invariant result == InsertPieces(args, pieces[..i])
    {
      assert pieces[..i + 1][..i] == pieces[..i];
      result := InsertPair(result, pieces[i]);
      i := i + 1;
    }
    assert pieces[..i] == pieces;
  }

  /** exchange::set_args with empty pieces skipped, so that the trailing '&' that
      get_args writes adds no entry. */
  method SetArgs(args: ArgMap, text: string) returns (result: ArgMap)
    ensures result == InsertNonEmptyPieces(args, Split(text, {'&'}))
  {
    var pieces, _ := SplitInto(text, {'&'});
    result := args;
    var i := 0;
    while i < |pieces|
      invariant i <= |pieces|
      invariant result == InsertNonEmptyPieces(args, pieces[..i])
    {
      assert pieces[..i + 1][..i] == pieces[..i];
      if pieces[i] != "" {
        result := InsertPair(result, pieces[i]);
      }
      i := i + 1;
    }
    assert pieces[..i] == pieces;
  }

  /** Inserting never changes an entry that is already there and never drops one. */
  lemma {:induction false} InsertPiecesKeeps(args: ArgMap, pieces: seq<string>)
    ensures forall k :: k in args ==> k in InsertPieces(args, pieces) && InsertPieces(args, pieces)[k] == args[k]
    ensures forall k :: k in InsertNonEmptyPieces(args, pieces) ==> k in InsertPieces(args, pieces)
    decreases |pieces|
  {
    if |pieces| > 0 {
      InsertPiecesKeeps(args, pieces[..|pieces| - 1]);
    }
  }

  /** Every piece's key is present afterwards. */
  lemma {:induction false} InsertPiecesHasKeys(args: ArgMap, pieces: seq<string>)
    ensures forall i :: 0 <= i < |pieces| ==> ParsePair(pieces[i]).0 in InsertPieces(args, pieces)
    decreases |pieces|
  {
    if |pieces| > 0 {
      var init := pieces[..|pieces| - 1];
      InsertPiecesHasKeys(args, init);
      forall i | 0 <= i < |pieces| ensures ParsePair(pieces[i]).0 in InsertPieces(args, pieces) {
        if i < |pieces| - 1 {
          assert pieces[i] == init[i];
        }
      }
    }
  }

  // ---------------------------------------------------------------------------
  // get_args
  // ---------------------------------------------------------------------------

  /** "key=value&" for each key of `order`, in that order. */
  function EncodeArgs(order: seq<string>, args: ArgMap): string
    requires forall i :: 0 <= i < |order| ==> order[i] in args
    decreases |order|
  {
    if |order| == 0 then ""
    else order[0] + "=" + args[order[0]] + "&" + EncodeArgs(order[1..], args)
  }

  /** `order` lists every key of `args` exactly once. */
  predicate IsKeyOrder(order: seq<string>, args: ArgMap)
  {
    |order| == |args| &&
    (forall i :: 0 <= i < |order| ==> order[i] in args) &&
    (forall k :: k in args ==> k in order) &&
    (forall i, j :: 0 <= i < j < |order| ==> order[i] != order[j])
  }

  lemma {:induction false} EncodeArgsAppend(order: seq<string>, k: string, args: ArgMap)
    requires forall i :: 0 <= i < |order| ==> order[i] in args
    requires k in args
    ensures EncodeArgs(order + [k], args) == EncodeArgs(order, args) + (k + "=" + args[k] + "&")
    decreases |order|
  {
    if |order| == 0 {
      assert [k][1..] == [];
    } else {
      assert (order + [k])[1..] == order[1..] + [k];
      EncodeArgsAppend(order[1..], k, args);
    }
  }

  /** exchange::get_args: one "key=value&" per entry, in the map's iteration order,
      which the model leaves open; `order` is the order that was taken. */
  method GetArgs(args: ArgMap) returns (text: string, ghost order: seq<string>)
    ensures IsKeyOrder(order, args)
    ensures text == EncodeArgs(order, args)
  {
    text := "";
    order := [];
    var rest := args.Keys;
    while rest != {}
      invariant rest <= args.Keys
      invariant |order| + |rest| == |args|
      invariant forall i :: 0 <= i < |order| ==> order[i] in args && order[i] !in rest
      invariant forall k :: k in args ==> k in order || k in rest
      invariant forall i, j :: 0 <= i < j < |order| ==> order[i] != order[j]
      invariant text == EncodeArgs(order, args)
      decreases rest
    {
      var k :| k in rest;
      EncodeArgsAppend(order, k, args);
      text := text + (k + "=" + args[k] + "&");
      order := order + [k];
      rest := rest - {k};
    }
  }

  /** get_args of a one-entry map is "key=value&" whatever order it takes. */
  lemma SingleArgText(k: string, v: string, order: seq<string>)
    requires IsKeyOrder(order, map[k := v])
    ensures EncodeArgs(order, map[k := v]) == k + "=" + v + "&"
  {
    assert order[0] == k;
    assert order == [k];
  }

  // ---------------------------------------------------------------------------
  // Round trip
  // ---------------------------------------------------------------------------

  /** Keys without '&' or '=', values without '&': the text form can hold them. */
  predicate Encodable(args: ArgMap)
  {
    forall k :: k in args ==> '&' !in k && '=' !in k && '&' !in args[k]
  }

  function Entries(order: seq<string>, args: ArgMap): (r: seq<string>)
    requires forall i :: 0 <= i < |order| ==> order[i] in args
    ensures |r| == |order|
    ensures forall i :: 0 <= i < |order| ==> r[i] == order[i] + "=" + args[order[i]]
    decreases |order|
  {
    if |order| == 0 then [] else [order[0] + "=" + args[order[0]]] + Entries(order[1..], args)
  }

  /** The text splits into the entries followed by one empty piece, which the
      trailing '&' leaves behind. */
  lemma {:induction false} SplitEncodeArgs(order: seq<string>, args: ArgMap)
    requires forall i :: 0 <= i < |order| ==> order[i] in args
    requires Encodable(args)
    ensures Split(EncodeArgs(order, args), {'&'}) == Entries(order, args) + [""]
    decreases |order|
  {
    if |order| == 0 {
    } else {
      var k := order[0];
      var entry := k + "=" + args[k];
      var rest := EncodeArgs(order[1..], args);
      SplitEncodeArgs(order[1..], args);
      assert EncodeArgs(order, args) == entry + ['&'] + rest;
      assert forall i :: 0 <= i < |entry| ==> entry[i] != '&' by {
        forall i | 0 <= i < |entry| ensures entry[i] != '&' {
          if i < |k| {
            assert entry[i] == k[i];
          } else if i > |k| {
            assert entry[i] == args[k][i - |k| - 1];
          }
        }
      }
      if |rest| > 0 {
        var k' := order[1];
        assert rest == k' + "=" + args[k'] + "&" + EncodeArgs(order[2..], args) by {
          assert order[1..][0] == k' && order[1..][1..] == order[2..];
        }
        if |k'| > 0 {
          assert rest[0] == k'[0];
          assert k'[0] in k';
        } else {
          assert rest[0] == '=';
        }
      }
      SplitWord(entry, '&', rest, {'&'});
    }
  }

  /** With no empty piece, skipping empty pieces changes nothing. */
  lemma {:induction false} NonEmptyPiecesAgree(args: ArgMap, pieces: seq<string>)
    requires forall i :: 0 <= i < |pieces| ==> pieces[i] != ""
    ensures InsertNonEmptyPieces(args, pieces) == InsertPieces(args, pieces)
    decreases |pieces|
  {
    if |pieces| > 0 {
      NonEmptyPiecesAgree(args, pieces[..|pieces| - 1]);
    }
  }

  /** Inserting the entries of distinct keys gives exactly those keys, with their values. */
  lemma {:induction false} InsertEntries(order: seq<string>, args: ArgMap)
    requires IsKeyOrderPrefix(order, args)
    requires Encodable(args)
    ensures forall k :: k in InsertPieces(map[], Entries(order, args)) <==> k in order
    ensures forall k :: k in InsertPieces(map[], Entries(order, args)) ==> InsertPieces(map[], Entries(order, args))[k] == args[k]
    decreases |order|
  {
    if |order| > 0 {
      var init, k := order[..|order| - 1], order[|order| - 1];
      KeyOrderInit(order, args);
      InsertEntries(init, args);
      var before := InsertPieces(map[], Entries(init, args));
      EntriesSnoc(order, args);
      InsertEntryStep(before, k, args);
      InsertStep(before, init, k, args);
    }
  }

  /** The keys but the last of a key order are a key order without the last. */
  lemma KeyOrderInit(order: seq<string>, args: ArgMap)
    requires IsKeyOrderPrefix(order, args) && |order| > 0
    ensures IsKeyOrderPrefix(order[..|order| - 1], args)
    ensures order[|order| - 1] !in order[..|order| - 1]
    ensures order == order[..|order| - 1] + [order[|order| - 1]]
  {
    var init := order[..|order| - 1];
    forall i | 0 <= i < |init|
      ensures init[i] == order[i] && init[i] != order[|order| - 1]
    {
      assert order[i] != order[|order| - 1];
    }
  }

  /** Inserting the entries of a key order is inserting those of all keys but the
      last, then the last one's entry. */
  lemma EntriesSnoc(order: seq<string>, args: ArgMap)
    requires IsKeyOrderPrefix(order, args) && |order| > 0
    ensures InsertPieces(map[], Entries(order, args))
         == InsertPair(InsertPieces(map[], Entries(order[..|order| - 1], args)),
                       order[|order| - 1] + "=" + args[order[|order| - 1]])
  {
    var es := Entries(order, args);
    EntriesPrefix(order, args);
    assert InsertPieces(map[], es) == InsertPair(InsertPieces(map[], es[..|es| - 1]), es[|es| - 1]);
  }

  /** The entries of all keys but the last are the entries but the last. */
  lemma EntriesPrefix(order: seq<string>, args: ArgMap)
    requires IsKeyOrderPrefix(order, args) && |order| > 0
    ensures Entries(order, args)[..|order| - 1] == Entries(order[..|order| - 1], args)
    ensures Entries(order, args)[|order| - 1] == order[|order| - 1] + "=" + args[order[|order| - 1]]
  {
    var init := order[..|order| - 1];
    var es, ei := Entries(order, args), Entries(init, args);
    forall i | 0 <= i < |ei|
      ensures es[i] == ei[i]
    {
      assert init[i] == order[i];
    }
  }

  /** The entry of a key that is not yet present adds it with its value. */
  lemma InsertEntryStep(before: ArgMap, k: string, args: ArgMap)
    requires k in args && Encodable(args) && k !in before
    ensures InsertPair(before, k + "=" + args[k]) == before[k := args[k]]
  {
    ParsePairEntry(k, args[k]);
  }

  /** One more key, not yet present, inserted with its value. */
  lemma InsertStep(before: ArgMap, init: seq<string>, k: string, args: ArgMap)
    requires k in args && k !in init
    requires forall x :: x in before <==> x in init
    requires forall x :: x in before ==> x in args && before[x] == args[x]
    ensures forall x :: x in before[k := args[k]] <==> x in init + [k]
    ensures forall x :: x in before[k := args[k]] ==> x in args && before[k := args[k]][x] == args[x]
  {
  }

  lemma InsertAllEntries(order: seq<string>, args: ArgMap)
    requires IsKeyOrderPrefix(order, args) && (forall k :: k in args ==> k in order)
    requires Encodable(args)
    ensures InsertPieces(map[], Entries(order, args)) == args
  {
    InsertEntries(order, args);
  }

  predicate IsKeyOrderPrefix(order: seq<string>, args: ArgMap)
  {
    (forall i :: 0 <= i < |order| ==> order[i] in args) &&
    (forall i, j :: 0 <= i < j < |order| ==> order[i] != order[j])
  }

  lemma ParsePairEntry(k: string, v: string)
    requires '=' !in k
    ensures ParsePair(k + "=" + v) == (k, v)
  {
    var piece := k + "=" + v;
    assert piece[|k|] == '=';
    var kv := ParsePair(piece);
    assert |kv.0| == |k|;
    assert kv.0 == piece[..|kv.0|] == k;
    assert kv.1 == piece[|k| + 1..] == v;
  }

  /** The map with the pair "" -> "" that the empty piece after get_args' trailing
      '&' inserts, unless "" is already a key. */
  function WithEmptyPair(args: ArgMap): (r: ArgMap)
    ensures "" in r && r[""] == (if "" in args then args[""] else "")
    ensures r.Keys == args.Keys + {""}
    ensures forall k :: k in args ==> r[k] == args[k]
  {
    if "" in args then args else args["" := ""]
  }

  /** Reading back what get_args wrote, as written: the map comes back with an extra
      entry "" -> "" (unless "" was already a key) from the empty piece after the
      trailing '&'. */
  lemma {:induction false} ArgsRoundTripAsWritten(order: seq<string>, args: ArgMap)
    requires IsKeyOrder(order, args) && Encodable(args)
    ensures InsertPieces(map[], Split(EncodeArgs(order, args), {'&'})) == WithEmptyPair(args)
  {
    SplitEncodeArgs(order, args);
    var es := Entries(order, args);
    InsertAllEntries(order, args);
    InsertEmptyPiece(map[], es);
  }

  /** A text of the form get_args writes: empty, or ending with '&'. */
  predicate ArgsText(text: string)
  {
    text == "" || text[|text| - 1] == '&'
  }

  /** get_args writes texts of that form. */
  lemma EncodeArgsText(order: seq<string>, args: ArgMap)
    requires forall i :: 0 <= i < |order| ==> order[i] in args
    ensures ArgsText(EncodeArgs(order, args))
  {
    if |order| > 0 {
      var rest := EncodeArgs(order[1..], args);
      EncodeArgsText(order[1..], args);
      var head := order[0] + "=" + args[order[0]] + "&";
      assert EncodeArgs(order, args) == head + rest;
      if rest == "" {
        assert EncodeArgs(order, args) == head;
      } else {
        assert (head + rest)[|head + rest| - 1] == rest[|rest| - 1];
      }
    }
  }

  /** set_args, as written, reads such a text with the key "" present: read back
      again, the map it gives does not change. */
  lemma ReadArgsTextHasEmptyKey(text: string)
    requires ArgsText(text)
    ensures "" in InsertPieces(map[], Split(text, {'&'}))
    ensures WithEmptyPair(InsertPieces(map[], Split(text, {'&'}))) == InsertPieces(map[], Split(text, {'&'}))
  {
    var ps := Split(text, {'&'});
    SplitEmptyPieces(text, {'&'});
    assert ps == ps[..|ps| - 1] + [""];
    InsertEmptyPiece(map[], ps[..|ps| - 1]);
  }

  /** A final empty piece inserts "" -> "" unless "" is already a key. */
  lemma InsertEmptyPiece(args: ArgMap, pieces: seq<string>)
    ensures InsertPieces(args, pieces + [""]) == WithEmptyPair(InsertPieces(args, pieces))
  {
    assert (pieces + [""])[..|pieces|] == pieces;
    assert FindFrom("", '=', 0) == None;
  }

  /** With empty pieces skipped, reading back what get_args wrote gives the map. */
  lemma {:induction false} ArgsRoundTrip(order: seq<string>, args: ArgMap)
    requires IsKeyOrder(order, args) && Encodable(args)
    ensures InsertNonEmptyPieces(map[], Split(EncodeArgs(order, args), {'&'})) == args
  {
    SplitEncodeArgs(order, args);
    var es := Entries(order, args);
    InsertAllEntries(order, args);
    EntriesNonEmpty(order, args);
    NonEmptyPiecesAgree(map[], es);
    SkipLastEmpty(map[], es);
  }

  /** Every entry holds at least its '='. */
  lemma EntriesNonEmpty(order: seq<string>, args: ArgMap)
    requires forall i :: 0 <= i < |order| ==> order[i] in args
    ensures forall i :: 0 <= i < |order| ==> Entries(order, args)[i] != ""
  {
    forall i | 0 <= i < |order|
      ensures Entries(order, args)[i] != ""
    {
      assert |Entries(order, args)[i]| == |order[i]| + 1 + |args[order[i]]|;
    }
  }

  /** A final empty piece is skipped. */
  lemma SkipLastEmpty(args: ArgMap, pieces: seq<string>)
    ensures InsertNonEmptyPieces(args, pieces + [""]) == InsertNonEmptyPieces(args, pieces)
  {
    assert (pieces + [""])[..|pieces|] == pieces;
  }

  /** Reading back an empty argument text, as written, yields {"": ""}; with empty
      pieces skipped it yields the empty map. */
  lemma EmptyArgsText()
    ensures InsertPieces(map[], Split("", {'&'})) == map["" := ""]
    ensures InsertNonEmptyPieces(map[], Split("", {'&'})) == map[]
  {
    assert [""][..0] == [];
    assert ParsePair("") == ("", "");
  }
}
