/** The managed configuration files: each is parsed line by line, edited as a
    list of keyed entries, and rendered again from scratch, so the only state
    is text. A `Format` names what differs between the files. */
module LineStore {
  import opened Text

  /** How one managed file is written and read.
      - `write` gives an entry's line, without the newline;
      - `read` is applied to a trimmed line, `None` for lines that are skipped;
      - `key` is what an edit matches entries by;
      - `merge(prior, new)` is what setting `new` makes of a matching entry. */
  datatype Format<!E> = Format(
    header: string,
    write: E -> string,
    read: string -> Option<E>,
    key: E -> string,
    merge: (E, E) -> E)

  /** One keyed setting; setting it again keeps the key as first written. */
  datatype Entry = Entry(key: string, value: string)

  function TakeValue(prior: Entry, given: Entry): Entry { Entry(prior.key, given.value) }

  // ----- Parsing and rendering --------------------------------------------

  function Kept<E>(o: Option<E>): seq<E> {
    if o.Some? then [o.value] else []
  }

  function ReadLines<E>(f: Format<E>, lines: seq<string>): seq<E> {
    if lines == [] then [] else Kept(f.read(Trim(lines[0]))) + ReadLines(f, lines[1..])
  }

  function Parse<E>(f: Format<E>, text: string): seq<E> { ReadLines(f, Lines(text)) }

  function Body<E>(f: Format<E>, es: seq<E>): string {
    if es == [] then [] else f.write(es[0]) + "\n" + Body(f, es[1..])
  }

  function Render<E>(f: Format<E>, es: seq<E>): string { f.header + Body(f, es) }

  method RenderFile<E>(f: Format<E>, es: seq<E>) returns (out: string)
    ensures out == Render(f, es)
  {
    out := f.header;
    for i := 0 to |es|
      invariant out + Body(f, es[i..]) == Render(f, es)
    {
      assert es[i..][1..] == es[i + 1..];
      Reassociate(out, f.write(es[i]) + "\n", Body(f, es[i + 1..]));
      out := out + (f.write(es[i]) + "\n");
    }
  }

  method ParseFile<E>(f: Format<E>, text: string) returns (es: seq<E>)
    ensures es == Parse(f, text)
  {
    es := [];
    var lines := Lines(text);
    for i := 0 to |lines|
      invariant es + ReadLines(f, lines[i..]) == ReadLines(f, lines)
    {
      assert lines[i..][1..] == lines[i + 1..];
      Reassociate(es, Kept(f.read(Trim(lines[i]))), ReadLines(f, lines[i + 1..]));
      es := es + Kept(f.read(Trim(lines[i])));
    }
  }

  // ----- What survives being written and read back ------------------------

  /** What reading an entry's own line back gives. */
  function ReadBack<E>(f: Format<E>, e: E): Option<E> { f.read(Trim(f.write(e))) }

  ghost predicate Writable<E>(f: Format<E>, es: seq<E>) {
    forall i :: 0 <= i < |es| ==> '\n' !in f.write(es[i])
  }

  ghost predicate Canonical<E>(f: Format<E>, e: E) {
    '\n' !in f.write(e) && ReadBack(f, e) == Some(e)
  }

  ghost predicate AllCanonical<E>(f: Format<E>, es: seq<E>) {
    forall i :: 0 <= i < |es| ==> Canonical(f, es[i])
  }

  function ReadBackAll<E>(f: Format<E>, es: seq<E>): seq<E> {
    if es == [] then [] else Kept(ReadBack(f, es[0])) + ReadBackAll(f, es[1..])
  }

  /** The header contributes no entry. */
  ghost predicate HeaderSilent<E>(f: Format<E>) {
    forall rest: string :: Parse(f, f.header + rest) == Parse(f, rest)
  }

  /** Whatever a line is read as would be read again from its own line. */
  ghost predicate ReadsCanonical<E>(f: Format<E>) {
    forall l: string :: '\n' !in l && Trimmed(l) && f.read(l).Some? ==> Canonical(f, f.read(l).value)
  }

  lemma CommentSilent<E>(f: Format<E>, comment: string, rest: string)
    requires '\n' !in comment && f.read(Trim(comment)) == None
    ensures Parse(f, comment + "\n" + rest) == Parse(f, rest)
  {
    LinesCons(comment, rest);
    TrimStripCr(comment);
  }

  lemma {:induction false} ParseBody<E>(f: Format<E>, es: seq<E>)
    requires Writable(f, es)
    ensures Parse(f, Body(f, es)) == ReadBackAll(f, es)
  {
    if es == [] {
    } else {
      LinesCons(f.write(es[0]), Body(f, es[1..]));
      TrimStripCr(f.write(es[0]));
      ParseBody(f, es[1..]);
    }
  }

  lemma {:induction false} ParseRender<E>(f: Format<E>, es: seq<E>)
    requires HeaderSilent(f) && Writable(f, es)
    ensures Parse(f, Render(f, es)) == ReadBackAll(f, es)
  {
    ParseBody(f, es);
  }

  lemma {:induction false} ReadBackAllConcat<E>(f: Format<E>, a: seq<E>, b: seq<E>)
    ensures ReadBackAll(f, a + b) == ReadBackAll(f, a) + ReadBackAll(f, b)
  {
    if a == [] {
      assert a + b == b;
    } else {
      assert (a + b)[1..] == a[1..] + b;
      ReadBackAllConcat(f, a[1..], b);
    }
  }

  lemma {:induction false} ReadBackAllCanonical<E>(f: Format<E>, es: seq<E>)
    requires AllCanonical(f, es)
    ensures ReadBackAll(f, es) == es
  {
    if es == [] {
    } else {
      ReadBackAllCanonical(f, es[1..]);
    }
  }

  lemma {:induction false} ReadLinesCanonical<E>(f: Format<E>, lines: seq<string>)
    requires ReadsCanonical(f)
    requires forall i :: 0 <= i < |lines| ==> '\n' !in lines[i]
    ensures AllCanonical(f, ReadLines(f, lines))
  {
    if lines == [] {
    } else {
      var _, _ := TrimParts(lines[0]);
      TrimContent(lines[0], '\n');
      ReadLinesCanonical(f, lines[1..]);
    }
  }

  /** For any text at all, parsing what was rendered from a parse changes nothing. */
  lemma ParseIsStable<E>(f: Format<E>, text: string)
    requires HeaderSilent(f) && ReadsCanonical(f)
    ensures Parse(f, Render(f, Parse(f, text))) == Parse(f, text)
    ensures AllCanonical(f, Parse(f, text))
  {
    ReadLinesCanonical(f, Lines(text));
    ParseRender(f, Parse(f, text));
    ReadBackAllCanonical(f, Parse(f, text));
  }

  /** The lists a file can hold unchanged are exactly the canonical ones. */
  lemma RoundTripExactly<E>(f: Format<E>, es: seq<E>)
    requires HeaderSilent(f) && ReadsCanonical(f) && Writable(f, es)
    ensures Parse(f, Render(f, es)) == es <==> AllCanonical(f, es)
  {
    ParseRender(f, es);
    if AllCanonical(f, es) {
      ReadBackAllCanonical(f, es);
    }
    ReadLinesCanonical(f, Lines(Render(f, es)));
  }

  // ----- Edits ------------------------------------------------------------

  /** The first entry with key `k`, or the length when there is none. */
  function Find<E>(key: E -> string, es: seq<E>, k: string): (i: nat)
    ensures i <= |es|
    ensures i < |es| ==> key(es[i]) == k
    ensures forall j :: 0 <= j < i ==> key(es[j]) != k
  {
    if es == [] || key(es[0]) == k then 0 else 1 + Find(key, es[1..], k)
  }

  function Get<E>(f: Format<E>, es: seq<E>, k: string): Option<E> {
    var i := Find(f.key, es, k);
    if i < |es| then Some(es[i]) else None
  }

  /** Updates the first entry with the same key in place, else appends. */
  function Upsert<E>(f: Format<E>, es: seq<E>, e: E): seq<E> {
    var i := Find(f.key, es, f.key(e));
    if i < |es| then es[i := f.merge(es[i], e)] else es + [e]
  }

  function Without<E>(key: E -> string, es: seq<E>, k: string): seq<E> {
    if es == [] then [] else
      (if key(es[0]) != k then [es[0]] else []) + Without(key, es[1..], k)
  }

  /** What an entry becomes once it has been through the file. */
  function Normal<E>(f: Format<E>, e: E): E {
    if ReadBack(f, e).Some? then ReadBack(f, e).value else e
  }

  /** `e` survives the file under its own key, whether appended or merged into
      an entry already there. */
  ghost predicate Admissible<E(!new)>(f: Format<E>, e: E) {
    && '\n' !in f.write(e) && ReadBack(f, e).Some?
    && f.key(Normal(f, e)) == f.key(e)
    && forall prior: E :: Canonical(f, prior) && f.key(prior) == f.key(e) ==>
                          MergesCleanly(f, prior, e)
  }

  ghost predicate MergesCleanly<E>(f: Format<E>, prior: E, e: E) {
    && '\n' !in f.write(f.merge(prior, e))
    && ReadBack(f, f.merge(prior, e)) == Some(f.merge(prior, Normal(f, e)))
    && f.key(f.merge(prior, Normal(f, e))) == f.key(prior)
  }

  lemma ReadBackAllAround<E>(f: Format<E>, a: seq<E>, m: E, b: seq<E>)
    requires AllCanonical(f, a) && AllCanonical(f, b)
    ensures ReadBackAll(f, a + ([m] + b)) == a + (Kept(ReadBack(f, m)) + b)
  {
    ReadBackAllConcat(f, a, [m] + b);
    assert ([m] + b)[1..] == b;
    ReadBackAllCanonical(f, a);
    ReadBackAllCanonical(f, b);
  }

  /** Setting an entry puts one entry between two parts of the list that stay,
      and setting its normal form puts what that entry reads back as there. */
  lemma UpsertParts<E(!new)>(f: Format<E>, es: seq<E>, e: E) returns (a: seq<E>, m: E, b: seq<E>)
    requires AllCanonical(f, es) && Admissible(f, e)
    ensures AllCanonical(f, a) && AllCanonical(f, b) && '\n' !in f.write(m) && ReadBack(f, m).Some?
    ensures Upsert(f, es, e) == a + ([m] + b)
    ensures Upsert(f, es, Normal(f, e)) == a + ([ReadBack(f, m).value] + b)
  {
    var i := Find(f.key, es, f.key(e));
    if i < |es| {
      assert MergesCleanly(f, es[i], e);
      a, b, m := es[..i], es[i + 1..], f.merge(es[i], e);
      UpdateAround(es, i, m);
      UpdateAround(es, i, f.merge(es[i], Normal(f, e)));
    } else {
      a, b, m := es, [], e;
    }
  }

  lemma UpdateAround<E>(es: seq<E>, i: nat, m: E)
    requires i < |es|
    ensures es[i := m] == es[..i] + ([m] + es[i + 1..])
  {
  }

  /** Setting an entry in the file is setting its normal form in the list. */
  lemma UpsertThroughText<E(!new)>(f: Format<E>, es: seq<E>, e: E)
    requires HeaderSilent(f) && AllCanonical(f, es) && Admissible(f, e)
    ensures Parse(f, Render(f, Upsert(f, es, e))) == Upsert(f, es, Normal(f, e))
  {
    var a, m, b := UpsertParts(f, es, e);
    ReadBackAllAround(f, a, m, b);
    ParseRender(f, a + ([m] + b));
  }

  lemma {:induction false} WithoutCanonical<E>(f: Format<E>, es: seq<E>, k: string)
    requires AllCanonical(f, es)
    ensures AllCanonical(f, Without(f.key, es, k))
  {
    if es == [] {
    } else {
      WithoutCanonical(f, es[1..], k);
    }
  }

  // ----- The list behaves as a map ----------------------------------------

  lemma {:induction false} FindLocates<E>(f: Format<E>, es: seq<E>, k: string, i: nat)
    requires i <= |es|
    requires forall j :: 0 <= j < i ==> f.key(es[j]) != k
    requires i < |es| ==> f.key(es[i]) == k
    ensures Find(f.key, es, k) == i
  {
    if i > 0 {
      FindLocates(f, es[1..], k, i - 1);
    }
  }

  /** After a set, its key reads as the entry set and every other key as before. */
  lemma GetAfterUpsert<E(!new)>(f: Format<E>, es: seq<E>, e: E, k: string)
    requires forall prior: E :: f.key(prior) == f.key(e) ==> f.key(f.merge(prior, e)) == f.key(e)
    ensures Get(f, Upsert(f, es, e), f.key(e)) ==
            Some(if Get(f, es, f.key(e)).Some? then f.merge(Get(f, es, f.key(e)).value, e) else e)
    ensures k != f.key(e) ==> Get(f, Upsert(f, es, e), k) == Get(f, es, k)
  {
    var after := Upsert(f, es, e);
    FindLocates(f, after, f.key(e), Find(f.key, es, f.key(e)));
    if k != f.key(e) {
      var i := Find(f.key, es, k);
      if i < |es| {
        FindLocates(f, after, k, i);
      } else {
        FindLocates(f, after, k, |after|);
      }
    }
  }

  lemma GetCons<E>(f: Format<E>, e: E, es: seq<E>, k: string)
    ensures Get(f, [e] + es, k) == if f.key(e) == k then Some(e) else Get(f, es, k)
  {
    assert ([e] + es)[1..] == es;
  }

  lemma {:induction false} GetAfterWithout<E>(f: Format<E>, es: seq<E>, k: string, other: string)
    ensures Get(f, Without(f.key, es, k), k) == None
    ensures other != k ==> Get(f, Without(f.key, es, k), other) == Get(f, es, other)
  {
    if es == [] {
    } else {
      GetAfterWithout(f, es[1..], k, other);
      assert es == [es[0]] + es[1..];
      GetCons(f, es[0], es[1..], other);
      GetCons(f, es[0], Without(f.key, es[1..], k), k);
      GetCons(f, es[0], Without(f.key, es[1..], k), other);
      assert f.key(es[0]) == k ==> Without(f.key, es, k) == Without(f.key, es[1..], k);
    }
  }

  // ----- Whole runs -------------------------------------------------------

  datatype Edit<E> = Set(entry: E) | Remove(key: string) | Clear

  /** Outcomes of the commands one edit runs: whether `cat` could be started,
      whether it exits zero on a file that is there, and whether the write
      succeeded. A failed command leaves the file alone. */
  datatype Io = Io(started: bool, readable: bool, written: bool)

  /** What `read_managed_file` returns: an unreadable file counts as empty. */
  function Current(file: Option<string>, readable: bool): string {
    if file.Some? && readable then file.value else ""
  }

  /** The file after one edit; clearing does not read it first. */
  function StepFile<E>(f: Format<E>, file: Option<string>, edit: Edit<E>, io: Io): Option<string> {
    if !io.written || (!edit.Clear? && !io.started) then file else
      var es := Parse(f, Current(file, io.readable));
      match edit
      case Set(e) => Some(Render(f, Upsert(f, es, e)))
      case Remove(k) => Some(Render(f, Without(f.key, es, k)))
      case Clear => Some(Render(f, []))
  }

  function RunFile<E>(f: Format<E>, file: Option<string>, run: seq<(Edit<E>, Io)>): Option<string>
    decreases |run|
  {
    if run == [] then file else RunFile(f, StepFile(f, file, run[0].0, run[0].1), run[1..])
  }

  function TextOf(file: Option<string>): string { if file.Some? then file.value else "" }

  /** The same edit on a plain list, with normal forms; an edit that could not
      read the file starts from nothing. */
  function StepList<E>(f: Format<E>, es: seq<E>, edit: Edit<E>, io: Io): seq<E> {
    if !io.written || (!edit.Clear? && !io.started) then es else
      var known := if io.readable then es else [];
      match edit
      case Set(e) => Upsert(f, known, Normal(f, e))
      case Remove(k) => Without(f.key, known, k)
      case Clear => []
  }

  function RunList<E>(f: Format<E>, es: seq<E>, run: seq<(Edit<E>, Io)>): seq<E>
    decreases |run|
  {
    if run == [] then es else RunList(f, StepList(f, es, run[0].0, run[0].1), run[1..])
  }

  ghost predicate GoodRun<E(!new)>(f: Format<E>, run: seq<(Edit<E>, Io)>) {
    forall i :: 0 <= i < |run| && run[i].0.Set? ==> Admissible(f, run[i].0.entry)
  }

  lemma StepRefines<E(!new)>(f: Format<E>, file: Option<string>, edit: Edit<E>, io: Io)
    requires HeaderSilent(f) && ReadsCanonical(f) && (edit.Set? ==> Admissible(f, edit.entry))
    ensures Parse(f, TextOf(StepFile(f, file, edit, io))) == StepList(f, Parse(f, TextOf(file)), edit, io)
  {
    var es := Parse(f, Current(file, io.readable));
    assert es == if io.readable then Parse(f, TextOf(file)) else [];
    ParseIsStable(f, Current(file, io.readable));
    match edit
    case Set(e) =>
      UpsertThroughText(f, es, e);
    case Remove(k) =>
      WithoutCanonical(f, es, k);
      ParseRender(f, Without(f.key, es, k));
      ReadBackAllCanonical(f, Without(f.key, es, k));
    case Clear =>
      var none: seq<E> := [];
      ParseRender(f, none);
  }

  /** Over every run of edits, with any failures and from any text, the file
      parses to exactly what the run makes of the list. */
  lemma {:induction false} RunRefines<E(!new)>(f: Format<E>, file: Option<string>, run: seq<(Edit<E>, Io)>)
    requires HeaderSilent(f) && ReadsCanonical(f) && GoodRun(f, run)
    ensures Parse(f, TextOf(RunFile(f, file, run))) == RunList(f, Parse(f, TextOf(file)), run)
    decreases |run|
  {
    if run == [] {
    } else {
      var (edit, io) := run[0];
      StepRefines(f, file, edit, io);
      RunRefines(f, StepFile(f, file, edit, io), run[1..]);
    }
  }

  // ----- What a completed edit does ---------------------------------------

  predicate Completed<E>(edit: Edit<E>, io: Io) { io.written && (edit.Clear? || io.started) }

  /** Entry `i` is the first of key `k`. */
  predicate FirstOf<E>(f: Format<E>, es: seq<E>, k: string, i: nat) {
    i < |es| && f.key(es[i]) == k && forall j :: 0 <= j < i ==> f.key(es[j]) != k
  }

  /** Entry by entry: the first one of the key of `e` takes `e` in, every other
      one stays where it is, and `e` is put at the end if there was none. */
  ghost predicate SetsEntry<E(!new)>(f: Format<E>, before: seq<E>, after: seq<E>, e: E) {
    && |before| <= |after| <= |before| + 1
    && (|after| == |before| <==> exists i :: FirstOf(f, before, f.key(e), i))
    && (|after| > |before| ==> after[|before|] == e)
    && forall i :: 0 <= i < |before| ==>
                     after[i] == if FirstOf(f, before, f.key(e), i) then f.merge(before[i], e) else before[i]
  }

  /** The entries at `at`, in order, are exactly those of other keys. */
  predicate Selects<E(==)>(f: Format<E>, before: seq<E>, after: seq<E>, k: string, at: seq<nat>) {
    && |at| == |after|
    && (forall i :: 0 <= i < |at| ==> at[i] < |before| && after[i] == before[at[i]])
    && (forall i, j :: 0 <= i < j < |at| ==> at[i] < at[j])
    && forall j :: 0 <= j < |before| ==> (f.key(before[j]) != k <==> j in at)
  }

  ghost predicate DropsKey<E(!new)>(f: Format<E>, before: seq<E>, after: seq<E>, k: string) {
    exists at: seq<nat> :: Selects(f, before, after, k, at)
  }

  lemma UpsertSetsEntry<E(!new)>(f: Format<E>, es: seq<E>, e: E)
    ensures SetsEntry(f, es, Upsert(f, es, e), e)
  {
    var i := Find(f.key, es, f.key(e));
    if i < |es| {
      assert FirstOf(f, es, f.key(e), i);
    }
  }

  lemma {:induction false} WithoutConcat<E>(key: E -> string, a: seq<E>, b: seq<E>, k: string)
    ensures Without(key, a + b, k) == Without(key, a, k) + Without(key, b, k)
  {
    if a == [] {
      assert a + b == b;
    } else {
      WithoutConcat(key, a[1..], b, k);
      assert (a + b)[1..] == a[1..] + b;
      Reassociate(if key(a[0]) != k then [a[0]] else [], Without(key, a[1..], k), Without(key, b, k));
    }
  }

  lemma {:induction false} WithoutSelects<E>(f: Format<E>, es: seq<E>, k: string) returns (at: seq<nat>)
    ensures Selects(f, es, Without(f.key, es, k), k, at)
  {
    if es == [] {
      at := [];
    } else {
      var init, last := es[..|es| - 1], es[|es| - 1];
      at := WithoutSelects(f, init, k);
      assert es == init + [last];
      WithoutConcat(f.key, init, [last], k);
      assert Without(f.key, [last], k) == if f.key(last) != k then [last] else [];
      if f.key(last) != k {
        at := at + [|init|];
      }
    }
  }

  /** What a completed edit leaves in the file, and that any other leaves it alone. */
  lemma StepTakesEffect<E(!new)>(f: Format<E>, file: Option<string>, edit: Edit<E>, io: Io)
    requires HeaderSilent(f) && ReadsCanonical(f) && (edit.Set? ==> Admissible(f, edit.entry))
    ensures !Completed(edit, io) ==> StepFile(f, file, edit, io) == file
    ensures Completed(edit, io) ==>
              var known := if io.readable then Parse(f, TextOf(file)) else [];
              var after := StepFile(f, file, edit, io);
              after.Some? &&
              match edit
              case Set(e) => SetsEntry(f, known, Parse(f, after.value), Normal(f, e))
              case Remove(k) => DropsKey(f, known, Parse(f, after.value), k)
              case Clear => after.value == f.header
  {
    StepRefines(f, file, edit, io);
    var known := if io.readable then Parse(f, TextOf(file)) else [];
    match edit
    case Set(e) => UpsertSetsEntry(f, known, Normal(f, e));
    case Remove(k) => var _ := WithoutSelects(f, known, k);
    case Clear => assert f.header + [] == f.header;
  }

  lemma BodyOfOne<E>(f: Format<E>, e: E)
    ensures Render(f, [e]) == f.header + (f.write(e) + "\n")
    ensures Upsert(f, Parse(f, ""), e) == [e]
  {
    var none: seq<E> := [];
    assert [e][1..] == none && none + [e] == [e];
    assert Body(f, [e]) == f.write(e) + "\n" + Body(f, none) == f.write(e) + "\n";
  }

  // ----- Reading before writing -------------------------------------------

  /** Setting an entry again keeps its key. */
  ghost predicate MergeKeepsKey<E(!new)>(f: Format<E>) {
    forall prior: E, e: E :: f.key(f.merge(prior, e)) == f.key(prior)
  }

  function EditedKey<E>(f: Format<E>, edit: Edit<E>): string
    requires !edit.Clear?
  {
    match edit
    case Set(e) => f.key(e)
    case Remove(k) => k
  }

  /** The entries of every key but the edited one stay, in their order. */
  ghost predicate KeepsOthers<E(!new)>(f: Format<E>, edit: Edit<E>, io: Io)
    requires !edit.Clear?
  {
    forall file: Option<string> :: OthersStay(f, file, edit, io)
  }

  ghost predicate OthersStay<E(!new)>(f: Format<E>, file: Option<string>, edit: Edit<E>, io: Io)
    requires !edit.Clear?
  {
    var k := EditedKey(f, edit);
    Without(f.key, Parse(f, TextOf(StepFile(f, file, edit, io))), k) == Without(f.key, Parse(f, TextOf(file)), k)
  }

  lemma {:induction false} WithoutTwice<E>(key: E -> string, es: seq<E>, k: string)
    ensures Without(key, Without(key, es, k), k) == Without(key, es, k)
  {
    if es == [] {
    } else {
      var rest := Without(key, es[1..], k);
      WithoutTwice(key, es[1..], k);
      assert key(es[0]) == k ==> Without(key, es, k) == rest;
      assert ([es[0]] + rest)[1..] == rest;
    }
  }

  lemma {:induction false} WithoutOwn<E>(key: E -> string, es: seq<E>, k: string)
    requires forall i :: 0 <= i < |es| ==> key(es[i]) == k
    ensures Without(key, es, k) == []
  {
    if es == [] {
    } else {
      WithoutOwn(key, es[1..], k);
    }
  }

  /** Putting entries of a key in the place of its first leaves the others. */
  lemma {:induction false} OthersAround<E>(key: E -> string, es: seq<E>, k: string, with: seq<E>)
    requires forall i :: 0 <= i < |with| ==> key(with[i]) == k
    ensures var i := Find(key, es, k);
            Without(key, es[..i] + with + (if i < |es| then es[i + 1..] else []), k) == Without(key, es, k)
  {
    var i := Find(key, es, k);
    var tail := if i < |es| then es[i + 1..] else [];
    var own := if i < |es| then [es[i]] else [];
    assert es == es[..i] + own + tail;
    OwnBetween(key, es[..i], own, tail, k);
    OwnBetween(key, es[..i], with, tail, k);
  }

  lemma {:induction false} OwnBetween<E>(key: E -> string, a: seq<E>, own: seq<E>, b: seq<E>, k: string)
    requires forall i :: 0 <= i < |own| ==> key(own[i]) == k
    ensures Without(key, a + own + b, k) == Without(key, a, k) + Without(key, b, k)
  {
    WithoutConcat(key, a + own, b, k);
    WithoutConcat(key, a, own, k);
    WithoutOwn(key, own, k);
  }

  lemma OthersAfterUpsert<E(!new)>(f: Format<E>, es: seq<E>, e: E)
    requires MergeKeepsKey(f)
    ensures Without(f.key, Upsert(f, es, e), f.key(e)) == Without(f.key, es, f.key(e))
  {
    var i := Find(f.key, es, f.key(e));
    var with := [if i < |es| then f.merge(es[i], e) else e];
    assert Upsert(f, es, e) == es[..i] + with + (if i < |es| then es[i + 1..] else []);
    OthersAround(f.key, es, f.key(e), with);
  }

  lemma OthersAfterStep<E(!new)>(f: Format<E>, file: Option<string>, edit: Edit<E>, io: Io)
    requires HeaderSilent(f) && ReadsCanonical(f) && MergeKeepsKey(f) && (edit.Set? ==> Admissible(f, edit.entry))
    requires !edit.Clear? && io.started && io.written
    ensures var k := EditedKey(f, edit);
            Without(f.key, Parse(f, TextOf(StepFile(f, file, edit, io))), k) ==
            Without(f.key, if io.readable then Parse(f, TextOf(file)) else [], k)
  {
    StepRefines(f, file, edit, io);
    var known := if io.readable then Parse(f, TextOf(file)) else [];
    match edit
    case Set(e) => OthersAfterUpsert(f, known, Normal(f, e));
    case Remove(k) => WithoutTwice(f.key, known, k);
  }

  /** A completed set or removal keeps the entries of every other key, whatever
      the file, exactly when it could read the file: one that is there and
      cannot be read is forgotten. `other` is any entry of another key. */
  lemma OthersKeptExactly<E(!new)>(f: Format<E>, edit: Edit<E>, io: Io, other: E)
    requires HeaderSilent(f) && ReadsCanonical(f) && MergeKeepsKey(f) && (edit.Set? ==> Admissible(f, edit.entry))
    requires !edit.Clear? && io.started && io.written
    requires Canonical(f, other) && f.key(other) != EditedKey(f, edit)
    ensures KeepsOthers(f, edit, io) <==> io.readable
  {
    forall file: Option<string>
      ensures io.readable ==> OthersStay(f, file, edit, io)
    {
      OthersAfterStep(f, file, edit, io);
    }
    var file := Some(Render(f, [other]));
    ParseRender(f, [other]);
    ReadBackAllCanonical(f, [other]);
    OthersAfterStep(f, file, edit, io);
    assert [other][1..] == [];
    assert Without(f.key, [other], EditedKey(f, edit)) == [other];
    assert OthersStay(f, file, edit, io) ==> io.readable;
  }

  /** The file on disk and the operations that edit it. */
  class ManagedFile<E> {
    const format: Format<E>
    var file: Option<string>

    constructor (format: Format<E>)
      ensures this.format == format && file == None
    {
      this.format := format;
      file := None;
    }

    /** Set, remove or clear. `prepared` is the step before the write and
        `applied` the one after it (creating the directory, restarting the
        service), so a failure can be reported for a file that did change. */
    method Apply(edit: Edit<E>, prepared: bool, io: Io, applied: bool) returns (ok: bool)
      modifies this
      ensures file == StepFile(format, old(file), edit, io.(written := prepared && io.written))
      ensures ok == ((edit.Clear? || io.started) && prepared && io.written && applied)
    {
      var entries: seq<E> := [];
      if !edit.Clear? {
        if !io.started {
          return false;
        }
        entries := ParseFile(format, Current(file, io.readable));
        match edit
        case Set(e) =>
          var i := Find(format.key, entries, format.key(e));
          if i < |entries| {
            entries := entries[i := format.merge(entries[i], e)];
          } else {
            entries := entries + [e];
          }
        case Remove(k) => entries := Without(format.key, entries, k);
        case Clear =>
      }
      var rendered := RenderFile(format, entries);
      if !prepared || !io.written {
        return false;
      }
      file := Some(rendered);
      ok := applied;
    }
  }
}
