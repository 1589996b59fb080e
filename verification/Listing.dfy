/** The list of audio files a session answers with: DSERVER_showFiles of src/dedicatedServer.c. */
module Listing {
  import opened Sequences
  import opened Wire
  import opened Wrappers

  datatype DirEntry = DirEntry(name: Bytes, isDir: bool)

  const EMPTY_FOLDER: Bytes := Ascii("Empty folder!\n")

  /** The names of the entries that are no directories, in order. */
  function FileNames(entries: seq<DirEntry>): seq<Bytes> {
    if entries == [] then [] else (if entries[0].isDir then [] else [entries[0].name]) + FileNames(entries[1..])
  }

  function Reverse<T>(s: seq<T>): (r: seq<T>)
    ensures |r| == |s| && forall i :: 0 <= i < |s| ==> r[i] == s[|s| - 1 - i]
  {
    if s == [] then [] else Reverse(s[1..]) + [s[0]]
  }

  function Join(names: seq<Bytes>): Bytes {
    if names == [] then []
    else if |names| == 1 then names[0]
    else names[0] + [NEWLINE] + Join(names[1..])
  }

  /** Cutting a text at each newline. */
  function Split(s: Bytes): seq<Bytes>
    decreases |s|
  {
    var i := IndexOf(s, NEWLINE);
    if i == |s| then [s] else [s[..i]] + Split(s[i + 1..])
  }

  ghost predicate NoNewlines(names: seq<Bytes>) {
    forall i :: 0 <= i < |names| ==> NEWLINE !in names[i]
  }

  lemma SplitStep(first: Bytes, rest: Bytes)
    requires NEWLINE !in first
    ensures Split(first) == [first]
    ensures Split(first + [NEWLINE] + rest) == [first] + Split(rest)
  {
    hide IndexOf;
    var s := first + [NEWLINE] + rest;
    FirstBehind(first, NEWLINE, rest);
    assert s[..|first|] == first && s[|first| + 1..] == rest;
  }

  /** The receiver gets every name back by cutting the answer at the newlines. */
  lemma {:induction false} SplitUndoesJoin(names: seq<Bytes>)
    requires names != [] && NoNewlines(names)
    ensures Split(Join(names)) == names
    decreases |names|
  {
    hide Split;
    SplitStep(names[0], Join(names[1..]));
    if |names| > 1 {
      SplitUndoesJoin(names[1..]);
    }
    assert names == [names[0]] + names[1..];
  }

  lemma {:induction false} JoinAppend(names: seq<Bytes>, name: Bytes)
    requires names != []
    ensures Join(names + [name]) == Join(names) + [NEWLINE] + name
    decreases |names|
  {
    if |names| > 1 {
      JoinAppend(names[1..], name);
      assert (names + [name])[1..] == names[1..] + [name];
    } else {
      assert (names + [name])[1..] == [name];
    }
  }

  /** The names of a listing are those of its parts, one after the other; an entry gives its name unless it is a
      directory. */
  lemma {:induction false} FileNamesAre(entries: seq<DirEntry>, more: seq<DirEntry>, e: DirEntry)
    ensures FileNames(entries + more) == FileNames(entries) + FileNames(more)
    ensures FileNames([e]) == if e.isDir then [] else [e.name]
    ensures FileNames([]) == []
    decreases |entries|
  {
    assert [e][1..] == [];
    if entries == [] {
      assert entries + more == more;
    } else {
      FileNamesAre(entries[1..], more, e);
      assert (entries + more)[1..] == entries[1..] + more;
      Regroup(if entries[0].isDir then [] else [entries[0].name], FileNames(entries[1..]), FileNames(more));
    }
  }

  lemma {:induction false} NamesHaveNoNewlines(entries: seq<DirEntry>)
    requires forall e :: e in entries ==> NEWLINE !in e.name
    ensures NoNewlines(FileNames(entries))
  {
    if entries != [] {
      NamesHaveNoNewlines(entries[1..]);
    }
  }

  lemma ReverseHasNoNewlines(names: seq<Bytes>)
    requires NoNewlines(names)
    ensures NoNewlines(Reverse(names)) && |Reverse(names)| == |names|
  {
  }

  lemma OneMoreName(entries: seq<DirEntry>, n: nat)
    requires n < |entries|
    ensures Reverse(FileNames(entries[n..]))
            == Reverse(FileNames(entries[n + 1..])) + if entries[n].isDir then [] else [entries[n].name]
  {
    hide FileNames, Reverse;
    var rest := FileNames(entries[n + 1..]);
    assert entries[n..][1..] == entries[n + 1..];
    FirstName(entries[n..]);
    if entries[n].isDir {
      assert [] + rest == rest && Reverse(rest) + [] == Reverse(rest);
    } else {
      ReverseStep(entries[n].name, rest);
    }
  }

  lemma FirstName(entries: seq<DirEntry>)
    requires entries != []
    ensures FileNames(entries) == (if entries[0].isDir then [] else [entries[0].name]) + FileNames(entries[1..])
  {
  }

  lemma ReverseStep<T>(x: T, s: seq<T>)
    ensures Reverse([x] + s) == Reverse(s) + [x]
  {
    assert ([x] + s)[1..] == s;
  }

  lemma OneMoreLine(entries: seq<DirEntry>, n: nat)
    requires n < |entries|
    ensures var before, after := Reverse(FileNames(entries[n + 1..])), Reverse(FileNames(entries[n..]));
            && (entries[n].isDir ==> after == before)
            && (!entries[n].isDir ==>
                  && after != []
                  && Join(after) == (if before == [] then [] else Join(before) + [NEWLINE]) + entries[n].name)
  {
    hide Join, Reverse, FileNames;
    OneMoreName(entries, n);
    var before := Reverse(FileNames(entries[n + 1..]));
    if !entries[n].isDir {
      if before == [] {
        assert before + [entries[n].name] == [entries[n].name];
        NoNames(entries);
      } else {
        JoinAppend(before, entries[n].name);
      }
    }
  }

  lemma NoNames(entries: seq<DirEntry>)
    ensures Reverse(FileNames(entries[|entries|..])) == []
    ensures entries[0..] == entries
    ensures forall name :: Join([name]) == name
    ensures Reverse<Bytes>([]) == []
  {
  }

  /** DSERVER_showFiles. `scanned` is what scandir returns, in its order; `unwritten` is the buffer as it was
      allocated, which is all there is to return when the directory holds no files. Who cuts the answer at the
      newlines has the names of the files, last first. */
  method ShowFiles(scanned: Option<seq<DirEntry>>, unwritten: Bytes) returns (data: Bytes)
    ensures scanned.None? ==> data == Ascii("Empty folder!\n")
    ensures scanned.Some? ==>
              var files := Reverse(FileNames(scanned.value));
              data == if files == [] then unwritten else Join(files)
    ensures scanned.Some? && FileNames(scanned.value) != []
            && (forall e :: e in scanned.value ==> NEWLINE !in e.name) ==>
              Split(data) == Reverse(FileNames(scanned.value))
  {
    hide FileNames, Reverse, Join, Split;
    data := unwritten;
    if scanned.None? {
      data := EMPTY_FOLDER;
    } else {
      var namelist := scanned.value;
      var i := 0;
      var n := |namelist|;
      NoNames(namelist);
      while n > 0
        invariant 0 <= n <= |namelist|
        invariant i == 0 <==> Reverse(FileNames(namelist[n..])) == []
        invariant data == if i == 0 then unwritten else Join(Reverse(FileNames(namelist[n..])))
      {
        n := n - 1;
        OneMoreLine(namelist, n);
        if !namelist[n].isDir {
          if i == 0 {
            data := namelist[n].name;
            i := i + 1;
          } else {
            data := data + [NEWLINE] + namelist[n].name;
          }
        }
      }
      if FileNames(namelist) != [] && forall e :: e in namelist ==> NEWLINE !in e.name {
        NamesHaveNoNewlines(namelist);
        ReverseHasNoNewlines(FileNames(namelist));
        SplitUndoesJoin(Reverse(FileNames(namelist)));
      }
    }
  }
}
