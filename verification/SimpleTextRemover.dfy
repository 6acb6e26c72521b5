/** The text remover in the source's own form: an object whose methods update its lists and counters. */
module SimpleTextRemovers {
  import opened PdfContent
  import opened RemoverModel
  import opened PageProofs

  ghost predicate NonEmptyLists<T>(ms: seq<seq<T>>) {
    forall i :: 0 <= i < |ms| ==> ms[i] != []
  }

  /** Taking the first glyph off the first list, and the list off when that was its last one. */
  function DropFirst<T>(ms: seq<seq<T>>): seq<seq<T>>
    requires ms != [] && ms[0] != []
  {
    if |ms[0]| == 1 then ms[1..] else [ms[0][1..]] + ms[1..]
  }

  lemma {:induction false} FlattenHead<T>(ms: seq<seq<T>>)
    requires NonEmptyLists(ms)
    ensures ms == [] <==> Flatten(ms) == []
    ensures ms != [] ==> ms[0] != [] && Flatten(ms)[0] == ms[0][0] && NonEmptyLists(DropFirst(ms))
    ensures ms != [] ==> Flatten(DropFirst(ms)) == Flatten(ms)[1..]
  {
  }

  lemma {:induction false} FlattenSnoc<T>(ms: seq<seq<T>>, m: seq<T>)
    ensures Flatten(ms + [m]) == Flatten(ms) + m
  {
    FlattenConcat(ms, [m]);
    assert Flatten([m]) == m + Flatten([]);
  }

  class SimpleTextRemover {
    var toRemove: string
    var cachedOperations: seq<Operation>
    var elementNumber: int
    var processedElements: nat
    var pendingMatch: seq<Glyph>
    var matches: seq<seq<Glyph>>
    var allMatches: seq<seq<Glyph>>
    /** What `super.write` has appended to the new content stream. */
    var output: seq<Operation>

    /** A matched glyph list leaves `matches` when its last glyph is written. */
    ghost predicate Valid()
      reads this
    {
      NonEmptyLists(matches)
    }

    ghost function State(): Remover
      reads this
    {
      Remover(toRemove, cachedOperations, elementNumber, processedElements, pendingMatch, Flatten(matches),
          allMatches, output)
    }

    constructor ()
      ensures Valid() && State() == Begin("", 0)
    {
      toRemove, cachedOperations, output := "", [], [];
      elementNumber, processedElements := -1, 0;
      pendingMatch, matches, allMatches := [], [], [];
    }

    /** Removes `toRemove` from a page; returns the matches and the new content. */
    method Remove(page: seq<Operation>, toRemove: string) returns (found: seq<seq<Glyph>>, content: seq<Operation>)
      requires Valid()
      modifies this
      ensures Valid()
      ensures toRemove == "" ==> found == [] && content == page && State() == old(State())
      ensures toRemove != "" ==>
                && State() == RemovePage(toRemove, old(processedElements), page)
                && found == State().allMatches && content == State().output
      ensures toRemove != "" && old(processedElements) == 0 ==>
                content == RewriteOps(page, PageMask(page, toRemove)) && cachedOperations == [] && matches == []
    {
      if |toRemove| == 0 {
        return [], page;
      }
      this.toRemove := toRemove;
      cachedOperations := [];
      elementNumber := -1;
      pendingMatch := [];
      matches := [];
      allMatches := [];
      output := [];
      EditPage(page);
      FlattenHead(matches);
      if old(processedElements) == 0 {
        RemoveIsRewrite(toRemove, page);
      }
      return allMatches, output;
    }

    /** Handles the operations of a page one by one, and finishes. */
    method EditPage(page: seq<Operation>)
      requires Valid() && Ready(State())
      modifies this
      ensures Valid() && State() == Finalize(Run(old(State()), page))
    {
      hide RemoverModel.Perform, Finalize, Flatten;
      ghost var begin := State();
      for i := 0 to |page|
        invariant Valid() && Ready(State()) && Ready(begin)
        invariant Run(begin, page) == Run(State(), page[i..])
      {
        Perform(page[i]);
        assert page[i..][1..] == page[i + 1..];
      }
      FinalizeContent();
    }

    /** The content stream processor handles one operation: it renders its strings, then writes it. */
    method Perform(operation: Operation)
      requires Valid() && Ready(State())
      modifies this
      ensures Valid() && Ready(State())
      ensures State() == RemoverModel.Perform(old(State()), operation)
    {
      hide RemoverModel.RenderText, RemoverModel.Write;
      if operation.Show? {
        var elements := Elements(operation.argument);
        for j := 0 to |elements|
          invariant Valid() && Ready(State()) && Ready(old(State()))
          invariant RenderStrings(old(State()), Strings(elements)) == RenderStrings(State(), Strings(elements[j..]))
        {
          StringsStep(elements, j);
          if elements[j].Str? {
            RenderText(elements[j].bytes);
          }
        }
      }
      Write(operation);
    }

    static lemma StringsStep(es: seq<Element>, j: nat)
      requires j < |es|
      ensures es[j].Num? ==> Strings(es[j..]) == Strings(es[j + 1..])
      ensures es[j].Str? ==> Strings(es[j..]) == [es[j].bytes] + Strings(es[j + 1..])
      ensures es[j].Str? ==> Strings(es[j..])[0] == es[j].bytes && Strings(es[j..])[1..] == Strings(es[j + 1..])
    {
    }

    static lemma {:induction false} SpliceStep(es: seq<Element>, i: nat, k: nat, q: seq<Glyph>)
      requires i < |es|
      ensures es[i].Num? ==>
                var rest := SpliceElements(es[i + 1..], k, q);
                SpliceElements(es[i..], k, q) == ([es[i]] + rest.0, rest.1)
      ensures es[i].Str? ==>
                var first := SpliceString(es[i].bytes, 0, k, q);
                var rest := SpliceElements(es[i + 1..], k + 1, first.1);
                SpliceElements(es[i..], k, q) == (first.0 + rest.0, rest.1)
    {
    }

    static lemma {:induction false} SpliceEnd(es: seq<Element>, k: nat, q: seq<Glyph>)
      ensures SpliceElements(es[|es|..], k, q) == ([], q) && Strings(es[|es|..]) == []
    {
    }

    /** Buffers the operation and writes what can be written. */
    method Write(operation: Operation)
      requires Valid()
      modifies this
      ensures Valid() && State() == RemoverModel.Write(old(State()), operation)
    {
      cachedOperations := cachedOperations + [operation];
      ghost var begin := State();
      while true
        invariant Valid() && Drain(State()) == Drain(begin)
        decreases |cachedOperations|
      {
        var ok := Process();
        if !ok {
          break;
        }
        cachedOperations := cachedOperations[1..];
      }
    }

    /** Drops a started match and writes everything that is still buffered. */
    method FinalizeContent()
      requires Valid()
      modifies this
      ensures Valid() && State() == Finalize(old(State()))
    {
      pendingMatch := [];
      ghost var begin := State();
      while cachedOperations != []
        invariant Valid() && Flush(State()) == Flush(begin)
        decreases |cachedOperations|
      {
        var ok := Process();
        cachedOperations := cachedOperations[1..];
      }
    }

    /** Tries to write the first buffered operation. */
    method Process() returns (ok: bool)
      requires Valid()
      modifies this
      ensures Valid()
      ensures if old(State()).cached == [] then !ok && State() == old(State())
              else (ok, State()) == RemoverModel.Process(old(State()))
    {
      if |cachedOperations| == 0 {
        return false;
      }
      var operation := cachedOperations[0];
      if operation.Show? {
        ok := ProcessTextShowingOp(operation);
        return;
      }
      output := output + [operation];
      return true;
    }

    /** Tries to write a text-showing operation. Refused while a pending match begins inside it; copied
        when it holds no matched glyph; otherwise replaced by its side effects and one TJ. */
    method ProcessTextShowingOp(operation: Operation) returns (ok: bool)
      requires Valid() && operation.Show?
      modifies this
      ensures Valid()
      ensures (ok, State()) == ProcessShow(old(State()), operation)
    {
      var elements := Elements(operation.argument);
      var elementCount := CountStrings(operation.argument);
      if |pendingMatch| != 0 && pendingMatch[0].elementNumber < processedElements + elementCount {
        return false;
      }
      FlattenHead(matches);
      if |matches| == 0 || processedElements + elementCount <= matches[0][0].elementNumber || elementCount == 0 {
        output := output + [operation];
        processedElements := processedElements + elementCount;
        return true;
      }
      hide SpliceElements, Strings, Flatten, NonEmptyLists;
      var newArray := SpliceArray(elements);
      WriteSideEffect(operation);
      WriteTJ(newArray);
      return true;
    }

    /** The outer loop of the rewriting: numbers are copied, and each string is rewritten. */
    method SpliceArray(elements: seq<Element>) returns (newArray: seq<Element>)
      requires Valid()
      modifies this`matches, this`processedElements
      ensures Valid() && processedElements == old(processedElements) + |Strings(elements)|
      ensures (newArray, Flatten(matches)) == SpliceElements(elements, old(processedElements), Flatten(old(matches)))
    {
      hide SpliceString, SpliceElements, Strings, Flatten, NonEmptyLists;
      newArray := [];
      ghost var first := processedElements;
      ghost var whole := SpliceElements(elements, first, Flatten(matches));
      assert elements[0..] == elements;
      for arrayIndex := 0 to |elements|
        invariant Valid()
        invariant processedElements + |Strings(elements[arrayIndex..])| == first + |Strings(elements)|
        invariant var rest := SpliceElements(elements[arrayIndex..], processedElements, Flatten(matches));
                  whole.0 == newArray + rest.0 && whole.1 == rest.1
      {
        var entry := elements[arrayIndex];
        StringsStep(elements, arrayIndex);
        SpliceStep(elements, arrayIndex, processedElements, Flatten(matches));
        if !entry.Str? {
          newArray := newArray + [entry];
        } else {
          newArray := SpliceEntry(entry.bytes, newArray);
          processedElements := processedElements + 1;
        }
      }
      SpliceEnd(elements, processedElements, Flatten(matches));
      assert whole.0 == newArray;
    }

    /** The inner loop of the rewriting: one string, with the matched glyphs taken off `matches`. */
    method SpliceEntry(entryBytes: seq<Byte>, prefix: seq<Element>) returns (newArray: seq<Element>)
      requires Valid()
      modifies this`matches
      ensures Valid()
      ensures var (es, q) := SpliceString(entryBytes, 0, processedElements, Flatten(old(matches)));
              newArray == prefix + es && Flatten(matches) == q
    {
      newArray := prefix;
      ghost var whole := SpliceString(entryBytes, 0, processedElements, Flatten(matches));
      var index := 0;
      while index < |entryBytes|
        invariant Valid()
        invariant var rest := SpliceString(entryBytes, index, processedElements, Flatten(matches));
                  prefix + whole.0 == newArray + rest.0 && whole.1 == rest.1
        decreases |entryBytes| - index
      {
        FlattenHead(matches);
        if |matches| == 0 || processedElements < matches[0][0].elementNumber {
          newArray := newArray + [Str(entryBytes[index..])];
          break;
        }
        var glyph := matches[0][0];
        if index < glyph.index {
          newArray := newArray + [Str(CopyOfRange(entryBytes, index, glyph.index))];
          index := glyph.index;
          continue;
        }
        newArray := newArray + [Num(-glyph.byte.width)];
        index := index + 1;
        if |matches[0]| == 1 {
          matches := matches[1..];
        } else {
          matches := [matches[0][1..]] + matches[1..];
        }
      }
    }

    method CountStrings(textArgument: Argument) returns (result: nat)
      ensures result == |Strings(Elements(textArgument))|
    {
      match textArgument
      case Single(e) =>
        assert Strings([e][1..]) == [];
        return if e.Str? then 1 else 0;
      case Array(es) =>
        result := 0;
        for i := 0 to |es|
          invariant result + |Strings(es[i..])| == |Strings(es)|
        {
          StringsStep(es, i);
          if es[i].Str? {
            result := result + 1;
          }
        }
    }

    /** `"` sets the word and character spacing and, like `'`, moves to the next line. */
    method WriteSideEffect(operation: Operation)
      requires operation.Show?
      modifies this`output
      ensures output == old(output) + SideEffects(operation.kind)
    {
      if operation.kind.DoubleQuote? {
        output := output + [SetWordSpacing(operation.kind.wordSpacing)];
        output := output + [SetCharSpacing(operation.kind.charSpacing)];
      }
      if operation.kind.DoubleQuote? || operation.kind.Quote? {
        output := output + [NextLine];
      }
    }

    method WriteTJ(elements: seq<Element>)
      modifies this`output
      ensures output == old(output) + TJOf(elements)
    {
      if elements != [] {
        output := output + [Show(TJ, Array(elements))];
      }
    }

    /** Lets the online matcher see one more string. */
    method RenderText(bytes: seq<Byte>)
      requires Valid() && Ready(State())
      modifies this
      ensures Valid() && Ready(State())
      ensures State() == RemoverModel.RenderText(old(State()), bytes)
    {
      hide Flatten, Reduce, Spells;
      elementNumber := elementNumber + 1;
      ghost var begin, gs := State(), StringGlyphs(bytes, elementNumber);
      for index := 0 to |bytes|
        invariant Valid() && Ready(State()) && elementNumber == begin.elementNumber && toRemove == begin.toRemove
        invariant RenderGlyphs(begin, gs) == RenderGlyphs(State(), gs[index..])
      {
        ghost var before := State();
        var matchPosition := |pendingMatch|;
        pendingMatch := pendingMatch + [Glyph(bytes[index], elementNumber, index)];
        if toRemove[matchPosition] != bytes[index].code {
          ReduceToPartialMatch();
        }
        if |pendingMatch| == |toRemove| {
          FlattenSnoc(matches, pendingMatch);
          matches := matches + [pendingMatch];
          allMatches := allMatches + [pendingMatch];
          pendingMatch := [];
        }
        assert State() == RenderGlyph(before, gs[index]);
        assert gs[index..][1..] == gs[index + 1..];
      }
    }

    /** Shortens a pending match that the last glyph broke to the longest one that still stands. */
    method ReduceToPartialMatch()
      requires 0 < |pendingMatch| <= |toRemove|
      modifies this`pendingMatch
      ensures pendingMatch == Reduce(old(pendingMatch), toRemove)
    {
      label outer:
      while pendingMatch != []
        invariant 0 < |pendingMatch| <= |toRemove|
        invariant Reduce(pendingMatch, toRemove) == Reduce(old(pendingMatch), toRemove)
        decreases |pendingMatch|
      {
        pendingMatch := pendingMatch[1..];
        var index := 0;
        while index < |pendingMatch|
          invariant 0 <= index <= |pendingMatch|
          invariant Spells(pendingMatch[..index], toRemove)
        {
          if toRemove[index] != pendingMatch[index].byte.code {
            continue outer;
          }
          index := index + 1;
        }
        assert pendingMatch[..index] == pendingMatch;
        break;
      }
    }
  }
}
