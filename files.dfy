/**
  File-context preparation: every uploaded file becomes a variable of the
  execution scope, named after its sanitised file name.  A `.csv` file is
  parsed into a DataFrame, any other file is wrapped as a byte buffer, a file
  that raises while being read or parsed is skipped, and a file that was
  processed without error is rewound to position 0.
 */
module FileContext {
  import opened Values
  import opened Text
  import opened Namespaces

  const CsvSuffix := ".csv"

  /** The bytes `read()` returns from position `pos`: the rest of the data,
      nothing once the position is at or past the end. */
  function Remaining(data: seq<byte>, pos: nat): (r: seq<byte>)
    ensures pos <= |data| ==> data == data[..pos] + r
    ensures |data| <= pos ==> r == []
  {
    if pos < |data| then data[pos..] else []
  }

  /** The position after `read()`: the end of the data, or the old position if
      that was already past the end. */
  function AfterRead(data: seq<byte>, pos: nat): (p: nat)
    ensures |data| <= p && pos <= p
    ensures p == |data| || p == pos
  {
    if pos < |data| then |data| else pos
  }

  /** An uploaded file: its name, its bytes, whether reading it raises (a
      closed file), and its read position. */
  class Upload {
    const filename: string
    const data: seq<byte>
    const closed: bool
    var pos: nat

    constructor (filename: string, data: seq<byte>, closed: bool)
      ensures this.filename == filename && this.data == data && this.closed == closed
      ensures pos == 0
    {
      this.filename := filename;
      this.data := data;
      this.closed := closed;
      pos := 0;
    }

    /** `file.read()`: None when it raises. */
    method Read() returns (r: Option<seq<byte>>)
      modifies this
      ensures closed ==> r == None && pos == old(pos)
      ensures !closed ==> r == Some(Remaining(data, old(pos))) && pos == AfterRead(data, old(pos))
    {
      if closed {
        r := None;
      } else {
        r := Some(Remaining(data, pos));
        pos := AfterRead(data, pos);
      }
    }

    /** `file.seek(offset)`. */
    method Seek(offset: nat)
      modifies this
      ensures pos == offset
    {
      pos := offset;
    }
  }

  /** What processing one file contributes: the value bound to its variable
      name (None when the file is skipped) and its read position afterwards. */
  datatype Step = Step(entry: Option<Value>, pos: nat)

  /** One iteration of the preparation loop for a file with the given name,
      data, closedness and read position; `parseCsv` is `pd.read_csv`, None
      when it raises. */
  function ProcessFile(name: string, data: seq<byte>, closed: bool, pos: nat,
                       parseCsv: seq<byte> -> Option<Frame>): (s: Step)
    ensures closed ==> s == Step(None, pos)
    ensures s.entry.Some? ==> s.pos == 0
    ensures s.entry.Some? ==> (EndsWith(name, CsvSuffix) <==> s.entry.value.DataFrame?)
    ensures s.entry.Some? && !EndsWith(name, CsvSuffix) ==> s.entry.value == Buffer(Remaining(data, pos))
    ensures s.entry.Some? && EndsWith(name, CsvSuffix) ==>
              Some(s.entry.value.frame) == parseCsv(Remaining(data, pos))
    ensures !closed && !EndsWith(name, CsvSuffix) ==> s.entry.Some?
    ensures !closed && s.entry.None? ==>
              EndsWith(name, CsvSuffix) && parseCsv(Remaining(data, pos)).None? && s.pos == AfterRead(data, pos)
  {
    if closed then Step(None, pos)
    else
      var content := Remaining(data, pos);
      if EndsWith(name, CsvSuffix) then
        match parseCsv(content)
        case None => Step(None, AfterRead(data, pos))
        case Some(frame) => Step(Some(DataFrame(frame)), 0)
      else Step(Some(Buffer(content)), 0)
  }

  /** The read positions of the given files. */
  function Positions(files: seq<Upload>): (m: map<Upload, nat>)
    reads set f | f in files
    ensures forall f :: f in m ==> f in files
    ensures forall f :: f in files ==> f in m
    ensures forall f :: f in files ==> m[f] == f.pos
  {
    map f | f in files :: f.pos
  }

  /** The state after processing a list of files: the context built so far,
      every file's read position, and what each file contributed. */
  datatype Prepared = Prepared(context: Namespace, pos: map<Upload, nat>, entries: seq<Option<Value>>)

  predicate NamesAreIdentifiers(d: Namespace) {
    forall k :: k in d.binding ==> IsIdentifierText(k)
  }

  /** `_prepare_file_context` on `files`, starting from read positions `pos0`.
      A file listed twice is processed twice, the second time from wherever
      the first left its read position. */
  function Prepare(files: seq<Upload>, pos0: map<Upload, nat>,
                   parseCsv: seq<byte> -> Option<Frame>): (p: Prepared)
    requires forall f :: f in files ==> f in pos0
    ensures WellFormed(p.context)
    ensures NamesAreIdentifiers(p.context)
    ensures p.pos.Keys == pos0.Keys
    ensures |p.entries| == |files|
    decreases |files|
  {
    if files == [] then Prepared(Empty, pos0, [])
    else
      var n := |files| - 1;
      var prev := Prepare(files[..n], pos0, parseCsv);
      var f := files[n];
      var step := ProcessFile(f.filename, f.data, f.closed, prev.pos[f], parseCsv);
      var name := Sanitize(f.filename);
      SanitizedIsIdentifier(f.filename);
      Prepared(if step.entry.Some? then Set(prev.context, name, step.entry.value) else prev.context,
               prev.pos[f := step.pos],
               prev.entries + [step.entry])
  }

  /** One more file: the loop body applied to the state the earlier files left. */
  lemma PrepareLast(files: seq<Upload>, pos0: map<Upload, nat>, parseCsv: seq<byte> -> Option<Frame>)
    requires forall f :: f in files ==> f in pos0
    requires files != []
    ensures var n := |files| - 1;
            var prev := Prepare(files[..n], pos0, parseCsv);
            var f := files[n];
            var step := ProcessFile(f.filename, f.data, f.closed, prev.pos[f], parseCsv);
            var p := Prepare(files, pos0, parseCsv);
            && p.entries == prev.entries + [step.entry]
            && p.pos == prev.pos[f := step.pos]
            && p.context == if step.entry.Some? then Set(prev.context, Sanitize(f.filename), step.entry.value)
                            else prev.context
  {
  }

  /** Processing a list of files processes its prefixes first. */
  lemma {:induction false} PreparePrefix(files: seq<Upload>, pos0: map<Upload, nat>,
                                         parseCsv: seq<byte> -> Option<Frame>, i: nat)
    requires forall f :: f in files ==> f in pos0
    requires i <= |files|
    ensures Prepare(files[..i], pos0, parseCsv).entries == Prepare(files, pos0, parseCsv).entries[..i]
    decreases |files|
  {
    if i < |files| {
      var n := |files| - 1;
      var p := Prepare(files, pos0, parseCsv);
      var prev := Prepare(files[..n], pos0, parseCsv);
      assert p.entries[..n] == prev.entries;
      assert files[..n][..i] == files[..i];
      PreparePrefix(files[..n], pos0, parseCsv, i);
      assert p.entries[..i] == prev.entries[..i];
    } else {
      assert files[..i] == files;
    }
  }

  /** Each file contributes what one loop iteration on it produces, from the
      read position the earlier iterations left it at. */
  lemma PrepareEntry(files: seq<Upload>, pos0: map<Upload, nat>,
                     parseCsv: seq<byte> -> Option<Frame>, i: nat)
    requires forall f :: f in files ==> f in pos0
    requires i < |files|
    ensures var before := Prepare(files[..i], pos0, parseCsv).pos[files[i]];
            Prepare(files, pos0, parseCsv).entries[i]
              == ProcessFile(files[i].filename, files[i].data, files[i].closed, before, parseCsv).entry
  {
    var g := files[..i + 1];
    PreparePrefix(files, pos0, parseCsv, i + 1);
    PrepareLast(g, pos0, parseCsv);
    assert g[..i] == files[..i] && g[i] == files[i];
    assert Prepare(files, pos0, parseCsv).entries[i] == Prepare(g, pos0, parseCsv).entries[i];
  }

  /** File `i` was processed without error and its sanitised name is `k`. */
  predicate BindsName(files: seq<Upload>, entries: seq<Option<Value>>, i: int, k: string)
    requires |entries| == |files|
  {
    0 <= i < |files| && entries[i].Some? && Sanitize(files[i].filename) == k
  }

  /** A variable name is bound exactly when some file with that sanitised name
      was processed without error. */
  lemma {:induction false} PrepareKeys(files: seq<Upload>, pos0: map<Upload, nat>,
                                       parseCsv: seq<byte> -> Option<Frame>, k: string)
    requires forall f :: f in files ==> f in pos0
    ensures var p := Prepare(files, pos0, parseCsv);
            k in p.context.binding <==> exists i :: BindsName(files, p.entries, i, k)
    decreases |files|
  {
    if files != [] {
      var n := |files| - 1;
      var p := Prepare(files, pos0, parseCsv);
      var prev := Prepare(files[..n], pos0, parseCsv);
      PrepareLast(files, pos0, parseCsv);
      PrepareKeys(files[..n], pos0, parseCsv, k);
      forall i | 0 <= i < n
        ensures BindsName(files[..n], prev.entries, i, k) <==> BindsName(files, p.entries, i, k)
      {
        assert files[..n][i] == files[i] && prev.entries[i] == p.entries[i];
      }
      var last := BindsName(files, p.entries, n, k);
      assert k in p.context.binding <==> k in prev.context.binding || last;
      if k in prev.context.binding {
        var i :| BindsName(files[..n], prev.entries, i, k);
        assert BindsName(files, p.entries, i, k);
      }
      if exists i :: BindsName(files, p.entries, i, k) {
        var i :| BindsName(files, p.entries, i, k);
        if i < n {
          assert BindsName(files[..n], prev.entries, i, k);
        }
      }
    }
  }

  /** Files are processed in order: a variable name is bound to what the last
      successfully processed file with that sanitised name contributed, so a
      later file overwrites an earlier one that collides with it. */
  lemma {:induction false} PrepareLastWins(files: seq<Upload>, pos0: map<Upload, nat>,
                                           parseCsv: seq<byte> -> Option<Frame>, i: nat)
    requires forall f :: f in files ==> f in pos0
    requires i < |files|
    requires Prepare(files, pos0, parseCsv).entries[i].Some?
    requires forall j :: i < j < |files| ==>
               Prepare(files, pos0, parseCsv).entries[j].None? ||
               Sanitize(files[j].filename) != Sanitize(files[i].filename)
    ensures var p := Prepare(files, pos0, parseCsv);
            var k := Sanitize(files[i].filename);
            k in p.context.binding && p.context.binding[k] == p.entries[i].value
    decreases |files|
  {
    var n := |files| - 1;
    var p := Prepare(files, pos0, parseCsv);
    var prev := Prepare(files[..n], pos0, parseCsv);
    PrepareLast(files, pos0, parseCsv);
    var k := Sanitize(files[i].filename);
    if i < n {
      assert p.entries[i] == prev.entries[i];
      forall j | i < j < n
        ensures prev.entries[j].None? || Sanitize(files[..n][j].filename) != Sanitize(files[..n][i].filename)
      {
        assert p.entries[j] == prev.entries[j];
      }
      PrepareLastWins(files[..n], pos0, parseCsv, i);
      assert k in prev.context.binding && prev.context.binding[k] == p.entries[i].value;
      assert p.entries[n].None? || Sanitize(files[n].filename) != k;
    }
  }

  /** A file that does not occur in the list keeps its read position. */
  lemma {:induction false} PrepareLeavesOthers(files: seq<Upload>, pos0: map<Upload, nat>,
                                               parseCsv: seq<byte> -> Option<Frame>, g: Upload)
    requires forall f :: f in files ==> f in pos0
    requires g in pos0 && g !in files
    ensures Prepare(files, pos0, parseCsv).pos[g] == pos0[g]
    decreases |files|
  {
    if files != [] {
      var n := |files| - 1;
      assert g !in files[..n];
      PrepareLeavesOthers(files[..n], pos0, parseCsv, g);
    }
  }

  /** No file object occurs twice in the list. */
  predicate Distinct(files: seq<Upload>) {
    forall a, b :: 0 <= a < b < |files| ==> files[a] != files[b]
  }

  lemma DistinctPrefix(files: seq<Upload>, n: nat)
    requires Distinct(files) && n <= |files|
    ensures Distinct(files[..n])
    ensures forall j :: n <= j < |files| ==> files[j] !in files[..n]
  {
    forall j | n <= j < |files| ensures files[j] !in files[..n] {
      forall a | 0 <= a < n ensures files[..n][a] != files[j] {
        assert files[..n][a] == files[a];
      }
    }
  }

  /** When no file object occurs twice, each file is processed from its own
      starting position, independently of the others: it is skipped, bound
      or rewound exactly as `ProcessFile` says for it alone. */
  lemma {:induction false} PrepareDistinct(files: seq<Upload>, pos0: map<Upload, nat>,
                                           parseCsv: seq<byte> -> Option<Frame>, i: nat)
    requires forall f :: f in files ==> f in pos0
    requires Distinct(files)
    requires i < |files|
    ensures var p := Prepare(files, pos0, parseCsv);
            var f := files[i];
            var step := ProcessFile(f.filename, f.data, f.closed, pos0[f], parseCsv);
            p.entries[i] == step.entry && p.pos[f] == step.pos
    decreases |files|
  {
    var n := |files| - 1;
    var f := files[i];
    var prev := Prepare(files[..n], pos0, parseCsv);
    PrepareLast(files, pos0, parseCsv);
    DistinctPrefix(files, n);
    if i < n {
      PrepareDistinct(files[..n], pos0, parseCsv, i);
      assert files[..n][i] == f && files[n] != f;
    } else {
      PrepareLeavesOthers(files[..n], pos0, parseCsv, files[n]);
      assert prev.pos[f] == pos0[f];
    }
  }

  /** One iteration of `_prepare_file_context`: reads `file`, binds what it
      holds to its sanitised name in `context`, and rewinds it, or leaves the
      context alone when reading or parsing raises. */
  method AddFile(file: Upload, context: Namespace, parseCsv: seq<byte> -> Option<Frame>)
    returns (next: Namespace)
    requires WellFormed(context)
    modifies file
    ensures var step := ProcessFile(file.filename, file.data, file.closed, old(file.pos), parseCsv);
            && file.pos == step.pos
            && next == if step.entry.Some? then Set(context, Sanitize(file.filename), step.entry.value)
                       else context
  {
    next := context;
    var name := Sanitize(file.filename);
    if EndsWith(file.filename, CsvSuffix) {
      var content := file.Read();
      if content.Some? {
        var table := parseCsv(content.value);
        if table.Some? {
          next := Set(next, name, DataFrame(table.value));
          file.Seek(0);
        }
      }
    } else {
      var content := file.Read();
      if content.Some? {
        next := Set(next, name, Buffer(content.value));
        file.Seek(0);
      }
    }
  }

  /** `_prepare_file_context`: builds the context in place, one file at a
      time, reading each file and rewinding those processed without error. */
  method PrepareFileContext(files: seq<Upload>, parseCsv: seq<byte> -> Option<Frame>)
    returns (context: Namespace)
    modifies set f | f in files
    ensures files == [] ==> context == Empty
    ensures context == Prepare(files, old(Positions(files)), parseCsv).context
    ensures forall f :: f in files ==> f.pos == Prepare(files, old(Positions(files)), parseCsv).pos[f]
  {
    context := Empty;
    if files == [] {
      return;
    }
    ghost var pos0 := Positions(files);
    var i := 0;
    while i < |files|
      invariant 0 <= i <= |files|
      invariant context == Prepare(files[..i], pos0, parseCsv).context
      invariant forall f :: f in files ==> f.pos == Prepare(files[..i], pos0, parseCsv).pos[f]
    {
      var file := files[i];
      assert files[..i + 1][..i] == files[..i] && files[..i + 1][i] == file;
      context := AddFile(file, context, parseCsv);
      i := i + 1;
    }
    assert files[..i] == files;
  }
}
