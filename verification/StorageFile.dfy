/**
 The storage file of the collection's cache (src/classad/indexfile.cpp): one line per ad, an
 index from key to offset, deletion by overwriting a line's first character with a star. The
 scan that rebuilds the index is ReadStorageEntry's (src/classad/collectionBase.cpp).
 */
module StorageFile {
  import opened Options
  import opened Keys

  // ---------- lines ----------

  predicate NewlineFree(line: string)
  {
    forall i :: 0 <= i < |line| ==> line[i] != '\n'
  }

  predicate IsLine(line: string)
  {
    line != [] && NewlineFree(line)
  }

  predicate Live(line: string)
  {
    IsLine(line) && line[0] != '*'
  }

  ghost predicate AllLines(lines: seq<string>)
  {
    forall j :: 0 <= j < |lines| ==> IsLine(lines[j])
  }

  ghost function Flat(lines: seq<string>): string
  {
    if lines == [] then [] else lines[0] + ['\n'] + Flat(lines[1..])
  }

  /** The offset of a line. */
  ghost function Start(lines: seq<string>, j: nat): nat
    requires j <= |lines|
  {
    |Flat(lines[..j])|
  }

  /** The line that starts at an offset, as read up to a newline or the end of the file. */
  function LineAt(file: string, offset: nat): (line: string)
    requires offset <= |file|
    ensures offset + |line| <= |file| && NewlineFree(line)
    decreases |file| - offset
  {
    if offset == |file| || file[offset] == '\n' then [] else [file[offset]] + LineAt(file, offset + 1)
  }

  lemma {:induction false} FlatAppended(a: seq<string>, b: seq<string>)
    ensures Flat(a + b) == Flat(a) + Flat(b)
  {
    if a == [] {
      assert a + b == b;
    } else {
      assert (a + b)[1..] == a[1..] + b;
      FlatAppended(a[1..], b);
    }
  }

  /** A file around one of its lines. */
  lemma FlatAround(lines: seq<string>, j: nat)
    requires j < |lines|
    ensures Flat(lines) == Flat(lines[..j]) + lines[j] + ['\n'] + Flat(lines[j + 1..])
    ensures Start(lines, j + 1) == Start(lines, j) + |lines[j]| + 1
  {
    assert lines == lines[..j] + ([lines[j]] + lines[j + 1..]);
    FlatAppended(lines[..j], [lines[j]] + lines[j + 1..]);
    assert ([lines[j]] + lines[j + 1..])[1..] == lines[j + 1..];
    assert lines[..j + 1] == lines[..j] + [lines[j]];
    FlatAppended(lines[..j], [lines[j]]);
    assert Flat([lines[j]]) == lines[j] + ['\n'] + Flat([]);
    var p, l, n, s := Flat(lines[..j]), lines[j], ['\n'], Flat(lines[j + 1..]);
    assert p + (l + n + s) == p + l + n + s;
  }

  lemma {:induction false} LineAtFront(p: string, line: string, s: string)
    requires NewlineFree(line)
    ensures LineAt(p + line + ['\n'] + s, |p|) == line
    decreases |line|
  {
    var f := p + line + ['\n'] + s;
    if line == [] {
      assert f[|p|] == '\n';
    } else {
      LineAtFront(p + [line[0]], line[1..], s);
      assert p + [line[0]] + line[1..] == p + line;
      assert f[|p|] == line[0] && line == [line[0]] + line[1..];
    }
  }

  lemma LineAtStart(lines: seq<string>, j: nat)
    requires j < |lines| && AllLines(lines)
    ensures Start(lines, j) < |Flat(lines)| && LineAt(Flat(lines), Start(lines, j)) == lines[j]
  {
    FlatAround(lines, j);
    LineAtFront(Flat(lines[..j]), lines[j], Flat(lines[j + 1..]));
  }

  lemma {:induction false} StartsIncrease(lines: seq<string>, i: nat, j: nat)
    requires i < j <= |lines|
    ensures Start(lines, i) < Start(lines, j)
    decreases j
  {
    FlatAround(lines, j - 1);
    if i < j - 1 {
      StartsIncrease(lines, i, j - 1);
    }
  }

  /** What a write at an offset makes of a file. */
  function Overwritten(file: string, offset: nat, s: string): string
    requires offset <= |file|
  {
    file[..offset] + s + (if offset + |s| <= |file| then file[offset + |s|..] else [])
  }

  function Starred(line: string): (r: string)
    requires IsLine(line)
    ensures IsLine(r) && !Live(r)
  {
    line[0 := '*']
  }

  lemma OverwriteMiddle(p: string, l: string, m: string, s: string)
    requires |l| == |m|
    ensures Overwritten(p + l + ['\n'] + s, |p|, m + ['\n']) == p + m + ['\n'] + s
  {
    var f := p + l + ['\n'] + s;
    assert f[..|p|] == p;
    assert f[|p| + |m| + 1..] == s;
  }

  /** Overwriting a line with its starred form changes that line only. */
  lemma StarLine(lines: seq<string>, j: nat)
    requires j < |lines| && AllLines(lines)
    ensures
      var offset, starred := Start(lines, j), Starred(lines[j]) + ['\n'];
      && AllLines(lines[j := Starred(lines[j])])
      && offset <= |Flat(lines)|
      && Flat(lines[j := Starred(lines[j])]) == Overwritten(Flat(lines), offset, starred)
    ensures forall i :: 0 <= i <= |lines| ==> Start(lines[j := Starred(lines[j])], i) == Start(lines, i)
  {
    var line := Starred(lines[j]);
    var after := lines[j := line];
    FlatAround(lines, j);
    FlatAround(after, j);
    assert after[..j] == lines[..j] && after[j + 1..] == lines[j + 1..];
    OverwriteMiddle(Flat(lines[..j]), lines[j], line, Flat(lines[j + 1..]));
    forall i | 0 <= i <= |lines| ensures Start(after, i) == Start(lines, i) {
      SameLengths(after[..i], lines[..i]);
    }
  }

  lemma {:induction false} SameLengths(a: seq<string>, b: seq<string>)
    requires |a| == |b| && forall i :: 0 <= i < |a| ==> |a[i]| == |b[i]|
    ensures |Flat(a)| == |Flat(b)|
  {
    if a != [] {
      SameLengths(a[1..], b[1..]);
    }
  }

  // ---------- what an index and a file represent ----------

  /** The index names exactly the live lines, each under its key. */
  ghost predicate Indexes(keyOf: string -> string, lines: seq<string>, index: map<string, nat>)
  {
    NamesLive(keyOf, lines, index) && NamesOnlyLive(keyOf, lines, index)
  }

  ghost predicate NamesLive(keyOf: string -> string, lines: seq<string>, index: map<string, nat>)
  {
    forall j :: 0 <= j < |lines| && Live(lines[j]) ==> keyOf(lines[j]) in index && index[keyOf(lines[j])] == Start(lines, j)
  }

  ghost predicate NamesOnlyLive(keyOf: string -> string, lines: seq<string>, index: map<string, nat>)
  {
    forall k :: k in index ==> exists j :: LiveUnder(keyOf, lines, j, k)
  }

  ghost predicate LiveUnder(keyOf: string -> string, lines: seq<string>, j: nat, k: string)
  {
    j < |lines| && Live(lines[j]) && keyOf(lines[j]) == k
  }

  /** The map holds the live lines, each under its key. */
  ghost predicate Stores(keyOf: string -> string, lines: seq<string>, index: map<string, nat>, m: map<string, string>)
  {
    && m.Keys == index.Keys
    && forall j :: 0 <= j < |lines| && Live(lines[j]) ==> keyOf(lines[j]) in m && m[keyOf(lines[j])] == lines[j]
  }

  /** Reading at a key's offset gives what the map holds. */
  lemma ReadsStored(keyOf: string -> string, lines: seq<string>, index: map<string, nat>, m: map<string, string>, k: string)
    returns (j: nat)
    requires AllLines(lines) && Indexes(keyOf, lines, index) && Stores(keyOf, lines, index, m) && k in index
    ensures LiveUnder(keyOf, lines, j, k) && index[k] == Start(lines, j) < |Flat(lines)|
    ensures LineAt(Flat(lines), index[k]) == m[k] == lines[j]
  {
    j :| LiveUnder(keyOf, lines, j, k);
    LineAtStart(lines, j);
  }

  lemma StartKept(lines: seq<string>, line: string, j: nat)
    requires j <= |lines|
    ensures Start(lines + [line], j) == Start(lines, j)
  {
    assert (lines + [line])[..j] == lines[..j];
  }

  lemma AddFlat(lines: seq<string>, line: string)
    ensures Flat(lines + [line]) == Flat(lines) + (line + ['\n'])
  {
    FlatAppended(lines, [line]);
    assert Flat([line]) == line + ['\n'] + Flat([]);
  }

  lemma AddLine(keyOf: string -> string, lines: seq<string>, index: map<string, nat>, line: string)
    requires AllLines(lines) && Indexes(keyOf, lines, index) && Live(line) && keyOf(line) !in index
    ensures AllLines(lines + [line]) && Indexes(keyOf, lines + [line], index[keyOf(line) := |Flat(lines)|])
    ensures Flat(lines + [line]) == Flat(lines) + (line + ['\n'])
  {
    AddFlat(lines, line);
    AddNamed(keyOf, lines, index, line);
    AddFound(keyOf, lines, index, line);
  }

  lemma AddNamed(keyOf: string -> string, lines: seq<string>, index: map<string, nat>, line: string)
    requires Indexes(keyOf, lines, index) && keyOf(line) !in index
    ensures NamesLive(keyOf, lines + [line], index[keyOf(line) := |Flat(lines)|])
  {
    var after, index' := lines + [line], index[keyOf(line) := |Flat(lines)|];
    forall j | 0 <= j < |after| && Live(after[j])
      ensures keyOf(after[j]) in index' && index'[keyOf(after[j])] == Start(after, j)
    {
      StartKept(lines, line, j);
      assert lines[..|lines|] == lines;
    }
  }

  lemma AddFound(keyOf: string -> string, lines: seq<string>, index: map<string, nat>, line: string)
    requires Indexes(keyOf, lines, index) && Live(line)
    ensures NamesOnlyLive(keyOf, lines + [line], index[keyOf(line) := |Flat(lines)|])
  {
    var index' := index[keyOf(line) := |Flat(lines)|];
    forall k | k in index' ensures exists j :: LiveUnder(keyOf, lines + [line], j, k) {
      if k == keyOf(line) {
        assert LiveUnder(keyOf, lines + [line], |lines|, k);
      } else {
        var j :| LiveUnder(keyOf, lines, j, k);
        assert LiveUnder(keyOf, lines + [line], j, k);
      }
    }
  }

  lemma AddStored(keyOf: string -> string, lines: seq<string>, index: map<string, nat>, m: map<string, string>, line: string,
                  offset: nat)
    requires Indexes(keyOf, lines, index) && Stores(keyOf, lines, index, m) && keyOf(line) !in index
    ensures Stores(keyOf, lines + [line], index[keyOf(line) := offset], m[keyOf(line) := line])
  {
  }

  /** Two live lines have different keys. */
  lemma KeysDiffer(keyOf: string -> string, lines: seq<string>, index: map<string, nat>, i: nat, j: nat)
    requires Indexes(keyOf, lines, index) && i < j < |lines| && Live(lines[i]) && Live(lines[j])
    ensures keyOf(lines[i]) != keyOf(lines[j])
  {
    StartsIncrease(lines, i, j);
  }

  lemma RemoveLine(keyOf: string -> string, lines: seq<string>, index: map<string, nat>, j: nat, k: string)
    requires AllLines(lines) && Indexes(keyOf, lines, index) && LiveUnder(keyOf, lines, j, k)
    ensures
      var after := lines[j := Starred(lines[j])];
      AllLines(after) && Indexes(keyOf, after, index - {k})
  {
    var after := lines[j := Starred(lines[j])];
    StarLine(lines, j);
    forall i | 0 <= i < |after| && Live(after[i])
      ensures keyOf(after[i]) in index - {k} && (index - {k})[keyOf(after[i])] == Start(after, i)
    {
      assert i != j && after[i] == lines[i];
      KeysDiffer(keyOf, lines, index, if i < j then i else j, if i < j then j else i);
    }
    forall q | q in index - {k} ensures exists i :: LiveUnder(keyOf, after, i, q) {
      var i :| LiveUnder(keyOf, lines, i, q);
      assert LiveUnder(keyOf, after, i, q);
    }
  }

  lemma RemoveStored(keyOf: string -> string, lines: seq<string>, index: map<string, nat>, m: map<string, string>, j: nat,
                     k: string)
    requires AllLines(lines) && Indexes(keyOf, lines, index) && Stores(keyOf, lines, index, m) && LiveUnder(keyOf, lines, j, k)
    ensures Stores(keyOf, lines[j := Starred(lines[j])], index - {k}, m - {k})
  {
    var after := lines[j := Starred(lines[j])];
    forall i | 0 <= i < |after| && Live(after[i])
      ensures keyOf(after[i]) in m - {k} && (m - {k})[keyOf(after[i])] == after[i]
    {
      KeysDiffer(keyOf, lines, index, if i < j then i else j, if i < j then j else i);
    }
  }

  // ---------- the file, its index and the map ----------

  /** The file is made of the lines, the index names the live ones and the map holds them. */
  ghost predicate IsStore(keyOf: string -> string, file: string, index: map<string, nat>, lines: seq<string>,
                          stored: map<string, string>)
  {
    AllLines(lines) && file == Flat(lines) && Indexes(keyOf, lines, index) && Stores(keyOf, lines, index, stored)
  }

  /** A key is removed by starring its line. */
  lemma RemoveFromStore(keyOf: string -> string, file: string, index: map<string, nat>, lines: seq<string>,
                        stored: map<string, string>, k: string) returns (after: seq<string>)
    requires IsStore(keyOf, file, index, lines, stored) && k in index
    ensures index[k] < |file| && index[k] + |LineAt(file, index[k])| < |file| && IsLine(LineAt(file, index[k]))
    ensures IsStore(keyOf, Overwritten(file, index[k], Starred(LineAt(file, index[k])) + ['\n']), index - {k}, after,
                    stored - {k})
  {
    var j := ReadsStored(keyOf, lines, index, stored, k);
    after := lines[j := Starred(lines[j])];
    FlatAround(lines, j);
    StarLine(lines, j);
    RemoveLine(keyOf, lines, index, j, k);
    RemoveStored(keyOf, lines, index, stored, j, k);
  }

  /** A new key is added by writing its line at the end. */
  lemma AddToStore(keyOf: string -> string, file: string, index: map<string, nat>, lines: seq<string>,
                   stored: map<string, string>, line: string)
    requires IsStore(keyOf, file, index, lines, stored) && Live(line) && keyOf(line) !in index
    ensures IsStore(keyOf, Overwritten(file, |file|, line + ['\n']), index[keyOf(line) := |file|], lines + [line],
                    stored[keyOf(line) := line])
  {
    AddLine(keyOf, lines, index, line);
    AddStored(keyOf, lines, index, stored, line, |file|);
    WrittenAtEnd(file, line + ['\n']);
  }

  lemma WrittenAtEnd(file: string, s: string)
    ensures Overwritten(file, |file|, s) == file + s
  {
  }

  // ---------- rebuilding the index ----------

  /** The scan from a position with the index so far; it ends at the first empty line. */
  function Rescan(keyOf: string -> string, file: string, pos: nat, index: map<string, nat>): map<string, nat>
    requires pos <= |file|
    decreases |file| - pos
  {
    var line := LineAt(file, pos);
    if line == [] then index
    else
      var index' := if line[0] == '*' then index else index[keyOf(line) := pos];
      Rescan(keyOf, file, After(file, pos), index')
  }

  /** Where reading a line leaves the position. */
  function After(file: string, pos: nat): (next: nat)
    requires pos <= |file|
    ensures pos <= next <= |file| && (pos < |file| ==> pos < next)
  {
    var end := pos + |LineAt(file, pos)|;
    if end < |file| then end + 1 else end
  }

  lemma AfterLine(lines: seq<string>, j: nat)
    requires j < |lines| && AllLines(lines)
    ensures Start(lines, j) < |Flat(lines)| && After(Flat(lines), Start(lines, j)) == Start(lines, j + 1)
  {
    LineAtStart(lines, j);
    FlatAround(lines, j);
  }

  lemma IndexIsUnique(keyOf: string -> string, lines: seq<string>, a: map<string, nat>, b: map<string, nat>)
    requires Indexes(keyOf, lines, a) && Indexes(keyOf, lines, b)
    ensures a == b
  {
    IndexIsLeast(keyOf, lines, a, b);
    IndexIsLeast(keyOf, lines, b, a);
  }

  lemma IndexIsLeast(keyOf: string -> string, lines: seq<string>, a: map<string, nat>, b: map<string, nat>)
    requires Indexes(keyOf, lines, a) && Indexes(keyOf, lines, b)
    ensures forall k :: k in a ==> k in b && a[k] == b[k]
  {
    forall k | k in a ensures k in b && a[k] == b[k] {
      var j :| LiveUnder(keyOf, lines, j, k);
    }
  }

  lemma AddStarred(keyOf: string -> string, lines: seq<string>, index: map<string, nat>, line: string)
    requires Indexes(keyOf, lines, index) && !Live(line)
    ensures Indexes(keyOf, lines + [line], index)
  {
    var after := lines + [line];
    forall j | 0 <= j < |after| && Live(after[j])
      ensures keyOf(after[j]) in index && index[keyOf(after[j])] == Start(after, j)
    {
      StartKept(lines, line, j);
    }
    forall k | k in index ensures exists j :: LiveUnder(keyOf, after, j, k) {
      var j :| LiveUnder(keyOf, lines, j, k);
      assert LiveUnder(keyOf, after, j, k);
    }
  }

  /** A live line's key is not among those of the lines before it. */
  lemma KeyIsNew(keyOf: string -> string, lines: seq<string>, index: map<string, nat>, j: nat, found: map<string, nat>)
    requires Indexes(keyOf, lines, index) && j < |lines| && Live(lines[j]) && Indexes(keyOf, lines[..j], found)
    ensures keyOf(lines[j]) !in found
  {
    if keyOf(lines[j]) in found {
      var i :| LiveUnder(keyOf, lines[..j], i, keyOf(lines[j]));
      KeysDiffer(keyOf, lines, index, i, j);
    }
  }

  /** The scan of a file gives back the index of its live lines. From line `j` on: given the
      index of the lines before it. */
  lemma {:induction false} RescanFrom(keyOf: string -> string, lines: seq<string>, index: map<string, nat>, j: nat,
                                      found: map<string, nat>)
    requires AllLines(lines) && Indexes(keyOf, lines, index) && j <= |lines|
    requires Indexes(keyOf, lines[..j], found)
    ensures Start(lines, j) <= |Flat(lines)| && Rescan(keyOf, Flat(lines), Start(lines, j), found) == index
    decreases |lines| - j
  {
    if j == |lines| {
      assert lines[..j] == lines;
      IndexIsUnique(keyOf, lines, index, found);
    } else {
      AfterLine(lines, j);
      LineAtStart(lines, j);
      assert lines[..j + 1] == lines[..j] + [lines[j]];
      if Live(lines[j]) {
        KeyIsNew(keyOf, lines, index, j, found);
        AddLine(keyOf, lines[..j], found, lines[j]);
        RescanFrom(keyOf, lines, index, j + 1, found[keyOf(lines[j]) := Start(lines, j)]);
      } else {
        AddStarred(keyOf, lines[..j], found, lines[j]);
        RescanFrom(keyOf, lines, index, j + 1, found);
      }
    }
  }

  lemma RescanRebuilds(keyOf: string -> string, lines: seq<string>, index: map<string, nat>)
    requires AllLines(lines) && Indexes(keyOf, lines, index)
    ensures Rescan(keyOf, Flat(lines), 0, map[]) == index
  {
    assert lines[..0] == [];
    RescanFrom(keyOf, lines, index, 0, map[]);
  }

  // ---------- compacting ----------

  /** The live lines copied so far, with their index: the keys of `todo` are still to come. */
  ghost predicate Copied(keyOf: string -> string, stored: map<string, string>, copied: seq<string>, moved: map<string, nat>,
                         todo: set<string>)
  {
    && AllLines(copied) && AllStored(keyOf, stored, copied)
    && Indexes(keyOf, copied, moved)
    && moved.Keys == stored.Keys - todo
  }

  /** Each line is live and is what the map holds under its key. */
  ghost predicate AllStored(keyOf: string -> string, stored: map<string, string>, lines: seq<string>)
  {
    forall j :: 0 <= j < |lines| ==> Live(lines[j]) && keyOf(lines[j]) in stored && stored[keyOf(lines[j])] == lines[j]
  }

  lemma CopyStep(keyOf: string -> string, stored: map<string, string>, copied: seq<string>, moved: map<string, nat>,
                 todo: set<string>, k: string)
    requires Copied(keyOf, stored, copied, moved, todo) && k in todo && k in stored
    requires Live(stored[k]) && keyOf(stored[k]) == k
    ensures Copied(keyOf, stored, copied + [stored[k]], moved[k := |Flat(copied)|], todo - {k})
    ensures Flat(copied + [stored[k]]) == Flat(copied) + (stored[k] + ['\n'])
  {
    AddLine(keyOf, copied, moved, stored[k]);
    assert AllStored(keyOf, stored, copied + [stored[k]]);
  }

  /** The copied lines are in the order of their keys, and before those still to come. */
  ghost predicate InOrder(keyOf: string -> string, copied: seq<string>, todo: set<string>)
  {
    && KeysIncrease(keyOf, copied)
    && forall i, q :: 0 <= i < |copied| && q in todo ==> KeyLess(keyOf(copied[i]), q)
  }

  lemma InOrderStep(keyOf: string -> string, copied: seq<string>, todo: set<string>, m: string)
    requires InOrder(keyOf, copied, todo) && keyOf(m) in todo
    requires forall q :: q in todo && q != keyOf(m) ==> KeyLess(keyOf(m), q)
    ensures InOrder(keyOf, copied + [m], todo - {keyOf(m)})
  {
  }

  ghost predicate KeysIncrease(keyOf: string -> string, lines: seq<string>)
  {
    forall i, j :: 0 <= i < j < |lines| ==> KeyLess(keyOf(lines[i]), keyOf(lines[j]))
  }

  /** What reading at an offset gives: nothing for a starred line. */
  function Served(file: string, offset: nat): string
    requires offset <= |file|
  {
    var line := LineAt(file, offset);
    if line != [] && line[0] == '*' then [] else line
  }

  // ---------- the old file after a compaction ----------

  /** Reading at every indexed offset gives the stored text. */
  ghost predicate ServesAll(file: string, index: map<string, nat>, stored: map<string, string>)
  {
    forall k :: k in index ==> index[k] <= |file| && k in stored && Served(file, index[k]) == stored[k]
  }

  /** The live lines come first, in the order of their keys. */
  ghost predicate LiveFirst(keyOf: string -> string, lines: seq<string>)
  {
    exists n: nat :: LiveUpTo(keyOf, lines, n)
  }

  ghost predicate LiveUpTo(keyOf: string -> string, lines: seq<string>, n: nat)
  {
    && n <= |lines| && KeysIncrease(keyOf, lines[..n])
    && forall j :: 0 <= j < |lines| ==> (Live(lines[j]) <==> j < n)
  }

  /** The copied line `i` is read in the old file at its offset in the new one. */
  ghost predicate ServedAt(lines: seq<string>, copied: seq<string>, i: nat)
    requires i < |copied|
  {
    Start(copied, i) <= |Flat(lines)| && Served(Flat(lines), Start(copied, i)) == copied[i]
  }

  /** All copied lines are read in the old file at their new offsets exactly when the old file
      begins with them. */
  lemma ServedIffPrefix(lines: seq<string>, copied: seq<string>)
    requires AllLines(lines) && forall i :: 0 <= i < |copied| ==> Live(copied[i])
    ensures (forall i: nat :: i < |copied| ==> ServedAt(lines, copied, i)) <==> copied <= lines
  {
    if forall i: nat :: i < |copied| ==> ServedAt(lines, copied, i) {
      ServedArePrefix(lines, copied, |copied|);
      assert copied[..|copied|] == copied;
    }
    if copied <= lines {
      forall i: nat | i < |copied| ensures ServedAt(lines, copied, i) {
        assert copied[..i] == lines[..i];
        LineAtStart(lines, i);
      }
    }
  }

  lemma {:induction false} ServedArePrefix(lines: seq<string>, copied: seq<string>, n: nat)
    requires AllLines(lines) && n <= |copied| && forall i :: 0 <= i < |copied| ==> Live(copied[i])
    requires forall i: nat :: i < |copied| ==> ServedAt(lines, copied, i)
    ensures copied[..n] <= lines
  {
    if n > 0 {
      ServedArePrefix(lines, copied, n - 1);
      assert ServedAt(lines, copied, n - 1);
      assert copied[..n - 1] == lines[..n - 1];
      NothingAtEnd(lines);
      if n - 1 < |lines| {
        LineAtStart(lines, n - 1);
      }
    }
  }

  lemma NothingAtEnd(lines: seq<string>)
    ensures Start(lines, |lines|) == |Flat(lines)| && Served(Flat(lines), |Flat(lines)|) == []
  {
    assert lines[..|lines|] == lines;
  }

  /** Two listings of the same lines in the order of their keys are the same. */
  lemma {:induction false} SameListing(keyOf: string -> string, a: seq<string>, b: seq<string>)
    requires KeysIncrease(keyOf, a) && KeysIncrease(keyOf, b)
    requires forall x :: x in a <==> x in b
    ensures a == b
    decreases |a|
  {
    NoneWithoutFirst(a);
    NoneWithoutFirst(b);
    if a != [] && b != [] {
      SameFirst(keyOf, a, b);
      forall x ensures x in a[1..] <==> x in b[1..] {
        InRest(keyOf, a, x);
        InRest(keyOf, b, x);
      }
      SameListing(keyOf, a[1..], b[1..]);
      assert a == [a[0]] + a[1..] && b == [b[0]] + b[1..];
    }
  }

  lemma NoneWithoutFirst(a: seq<string>)
    ensures a != [] ==> a[0] in a
  {
  }

  lemma SameFirst(keyOf: string -> string, a: seq<string>, b: seq<string>)
    requires KeysIncrease(keyOf, a) && KeysIncrease(keyOf, b) && a != [] && b != []
    requires a[0] in b && b[0] in a
    ensures a[0] == b[0]
  {
    KeyLessIsStrict(keyOf(a[0]), keyOf(b[0]));
  }

  lemma InRest(keyOf: string -> string, a: seq<string>, x: string)
    requires KeysIncrease(keyOf, a) && a != []
    ensures x in a[1..] <==> x in a && x != a[0]
  {
    KeyLessIsStrict(keyOf(a[0]), keyOf(a[0]));
    if x in a && x != a[0] {
      var i :| 0 <= i < |a| && a[i] == x;
      assert a[1..][i - 1] == x;
    }
  }

  /** The lines that a compaction copies are those that the map holds. */
  lemma CopiedLines(keyOf: string -> string, index: map<string, nat>, stored: map<string, string>, copied: seq<string>,
                    x: string)
    requires Indexes(keyOf, copied, index) && Stores(keyOf, copied, index, stored) && AllStored(keyOf, stored, copied)
    ensures x in copied <==> keyOf(x) in stored && stored[keyOf(x)] == x
  {
    if keyOf(x) in stored && stored[keyOf(x)] == x {
      var j :| LiveUnder(keyOf, copied, j, keyOf(x));
    }
  }

  lemma LiveLines(keyOf: string -> string, index: map<string, nat>, stored: map<string, string>, lines: seq<string>, n: nat,
                  x: string)
    requires Indexes(keyOf, lines, index) && Stores(keyOf, lines, index, stored) && LiveUpTo(keyOf, lines, n)
    ensures x in lines[..n] <==> keyOf(x) in stored && stored[keyOf(x)] == x
  {
    if keyOf(x) in stored && stored[keyOf(x)] == x {
      var j: nat :| LiveUnder(keyOf, lines, j, keyOf(x));
      assert lines[..n][j] == x;
    }
  }

  /** The old file begins with the copied lines exactly when its live lines come first, in the
      order of their keys. */
  lemma PrefixIffLiveFirst(keyOf: string -> string, file: string, index: map<string, nat>, lines: seq<string>,
                           stored: map<string, string>, copied: seq<string>, newIndex: map<string, nat>)
    requires IsStore(keyOf, file, index, lines, stored)
    requires Indexes(keyOf, copied, newIndex) && Stores(keyOf, copied, newIndex, stored)
    requires AllStored(keyOf, stored, copied) && KeysIncrease(keyOf, copied)
    ensures copied <= lines <==> LiveFirst(keyOf, lines)
  {
    if copied <= lines {
      var n := |copied|;
      forall j | 0 <= j < |lines| ensures Live(lines[j]) <==> j < n {
        assert j < n ==> lines[j] == copied[j];
        if Live(lines[j]) {
          CopiedLines(keyOf, newIndex, stored, copied, lines[j]);
          var i :| 0 <= i < |copied| && copied[i] == lines[j];
          assert lines[i] == copied[i];
          if n <= j {
            KeysDiffer(keyOf, lines, index, i, j);
          }
        }
      }
      assert lines[..n] == copied;
      assert LiveUpTo(keyOf, lines, n);
    }
    if LiveFirst(keyOf, lines) {
      var n: nat :| LiveUpTo(keyOf, lines, n);
      forall x ensures x in lines[..n] <==> x in copied {
        CopiedLines(keyOf, newIndex, stored, copied, x);
        LiveLines(keyOf, index, stored, lines, n, x);
      }
      SameListing(keyOf, copied, lines[..n]);
    }
  }

  /** The rewritten offsets are right in the old file exactly when it begins with the copied
      lines. */
  lemma ServesAllIffPrefix(keyOf: string -> string, lines: seq<string>, stored: map<string, string>, copied: seq<string>,
                           newIndex: map<string, nat>)
    requires AllLines(lines)
    requires Indexes(keyOf, copied, newIndex) && Stores(keyOf, copied, newIndex, stored)
    requires AllStored(keyOf, stored, copied)
    ensures ServesAll(Flat(lines), newIndex, stored) <==> copied <= lines
  {
    ServedIffPrefix(lines, copied);
    if ServesAll(Flat(lines), newIndex, stored) {
      forall i: nat | i < |copied| ensures ServedAt(lines, copied, i) {
        assert Live(copied[i]) && newIndex[keyOf(copied[i])] == Start(copied, i);
      }
    }
    if copied <= lines {
      forall k | k in newIndex
        ensures newIndex[k] <= |Flat(lines)| && k in stored && Served(Flat(lines), newIndex[k]) == stored[k]
      {
        var j: nat :| LiveUnder(keyOf, copied, j, k);
        assert ServedAt(lines, copied, j);
      }
    }
  }

  /** After a compaction the old file is read rightly at the new offsets exactly when its live
      lines came first, in the order of their keys. */
  lemma OldFileServesIff(keyOf: string -> string, file: string, index: map<string, nat>, lines: seq<string>,
                         stored: map<string, string>, copied: seq<string>, newIndex: map<string, nat>)
    requires IsStore(keyOf, file, index, lines, stored)
    requires Indexes(keyOf, copied, newIndex) && Stores(keyOf, copied, newIndex, stored)
    requires AllStored(keyOf, stored, copied) && KeysIncrease(keyOf, copied)
    ensures ServesAll(file, newIndex, stored) <==> copied <= lines
    ensures ServesAll(file, newIndex, stored) <==> LiveFirst(keyOf, lines)
  {
    ServesAllIffPrefix(keyOf, lines, stored, copied, newIndex);
    PrefixIffLiveFirst(keyOf, file, index, lines, stored, copied, newIndex);
  }

  /** An ad written at the end of a file is read back from there exactly when it holds no
      newline and does not begin with a star. */
  lemma ReadBackIff(file: string, ad: string)
    ensures Served(file + ad + ['\n'], |file|) == ad <==> NewlineFree(ad) && (ad == [] || ad[0] != '*')
  {
    assert file + ad + ['\n'] + [] == file + ad + ['\n'];
    if NewlineFree(ad) {
      LineAtFront(file, ad, []);
    }
  }

  lemma RemovedAndAdded(m: map<string, string>, key: string, ad: string)
    ensures (m - {key})[key := ad] == m[key := ad]
  {
  }

  /** What is written at the end of a file changes nothing before. */
  lemma OthersServed(keyOf: string -> string, file: string, index: map<string, nat>, lines: seq<string>,
                     stored: map<string, string>, s: string)
    requires IsStore(keyOf, file, index, lines, stored)
    ensures forall q :: q in stored ==> q in index && index[q] <= |file| && Served(file + s, index[q]) == stored[q]
  {
    forall q | q in stored ensures index[q] <= |file| && Served(file + s, index[q]) == stored[q] {
      var j := ReadsStored(keyOf, lines, index, stored, q);
      var p, l, t := Flat(lines[..j]), lines[j], Flat(lines[j + 1..]);
      FlatAround(lines, j);
      LineAtFront(p, l, t + s);
      assert p + l + ['\n'] + (t + s) == file + s;
    }
  }

  lemma NothingRemoved(stored: map<string, string>, index: map<string, nat>, key: string)
    requires key !in stored && key !in index
    ensures stored - {key} == stored && index - {key} == index
  {
  }

  lemma AppendServes(keyOf: string -> string, file: string, index: map<string, nat>, lines: seq<string>,
                     stored: map<string, string>, ad: string)
    requires IsStore(keyOf, file, index, lines, stored)
    ensures Overwritten(file, |file|, ad + ['\n']) == file + ad + ['\n']
    ensures Served(file + ad + ['\n'], |file|) == ad <==> NewlineFree(ad) && (ad == [] || ad[0] != '*')
    ensures forall q :: q in stored ==>
      q in index && index[q] <= |file| && Served(file + ad + ['\n'], index[q]) == stored[q]
  {
    WrittenAtEnd(file, ad + ['\n']);
    ReadBackIff(file, ad);
    OthersServed(keyOf, file, index, lines, stored, ad + ['\n']);
    assert file + (ad + ['\n']) == file + ad + ['\n'];
  }

  // ---------- the file object ----------

  class IndexFile {
    /** The key that the collection reads out of an ad's text. */
    const keyOf: string -> string
    var file: string
    var position: nat
    var index: map<string, nat>
    /** The lines of the file, and the text stored for each key. */
    ghost var lines: seq<string>
    ghost var stored: map<string, string>

    ghost predicate Valid()
      reads this
    {
      position <= |file| && Consistent()
    }

    ghost predicate Consistent()
      reads this`file, this`index, this`lines, this`stored
    {
      IsStore(keyOf, file, index, lines, stored)
    }

    constructor (keyOf: string -> string)
      ensures Valid() && stored == map[] && this.keyOf == keyOf
    {
      this.keyOf := keyOf;
      file, position, index := [], 0, map[];
      lines, stored := [], map[];
    }

    method Read() returns (l: nat, c: char)
      requires position <= |file|
      modifies this`position
      ensures position <= |file|
      ensures if old(position) < |file| then l == 1 && c == file[old(position)] && position == old(position) + 1
              else l == 0 && position == old(position)
    {
      l, c := 0, '\n';
      if position < |file| {
        l, c, position := 1, file[position], position + 1;
      }
    }

    method Write(s: string)
      requires position <= |file|
      modifies this`file, this`position
      ensures file == Overwritten(old(file), old(position), s) && position == old(position) + |s|
      ensures position <= |file|
    {
      file := Overwritten(file, position, s);
      position := position + |s|;
    }

    /** The loop that reads up to a newline. */
    method ReadLine() returns (m: string)
      requires position <= |file|
      modifies this`position
      ensures m == LineAt(file, old(position)) && position == After(file, old(position))
    {
      m := [];
      var more := true;
      ghost var start := position;
      while more
        invariant start <= position <= |file|
        invariant more ==> LineAt(file, start) == m + LineAt(file, position) && position == start + |m|
        invariant !more ==> m == LineAt(file, start) && position == After(file, start)
        decreases more, |file| - position
      {
        var l, c := Read();
        more := l > 0 && c != '\n';
        if more {
          assert m + ([c] + LineAt(file, position)) == m + [c] + LineAt(file, position);
          m := m + [c];
        } else {
          assert m + [] == m;
        }
      }
    }

    method FindInFile(key: string) returns (offset: Option<nat>)
      ensures offset == if key in index then Some(index[key]) else None
    {
      offset := if key in index then Some(index[key]) else None;
    }

    /** Reads the ad at an offset; a starred line gives the empty string. */
    method GetClassadFromFile(offset: nat) returns (m: string)
      requires offset <= |file|
      modifies this`position
      ensures m == Served(file, offset) && position <= |file|
      ensures old(Valid()) ==> Valid()
      ensures old(Valid()) ==> forall key :: key in index && index[key] == offset ==> key in stored && m == stored[key]
    {
      position := offset;
      m := ReadLine();
      forall key | old(Valid()) && key in index && index[key] == offset ensures key in stored && m == stored[key] && Live(m) {
        var j := ReadsStored(keyOf, lines, index, stored, key);
      }
      if m != [] && m[0] == '*' {
        m := "";
      }
    }

    method DeleteFromStorageFile(key: string) returns (found: bool)
      requires Valid()
      modifies this
      ensures Valid() && found == (key in old(stored))
      ensures stored == old(stored) - {key} && index == old(index) - {key} && |file| == old(|file|)
    {
      found := key in index;
      if !found {
        NothingRemoved(stored, index, key);
        return;
      }
      ghost var after := RemoveFromStore(keyOf, file, index, lines, stored, key);
      var offset := index[key];
      position := offset;
      var m := ReadLine();
      m := m[0 := '*'] + ['\n'];
      position := offset;
      Write(m);
      index := index - {key};
      lines, stored := after, stored - {key};
    }

    /** The old line is starred and the new one written at the end, whatever it is. It is read
        back as `ReadBackIff` says, other keys keep their text, and a live line that names its
        key leaves the object valid with the ad stored. */
    method WriteBack(key: string, ad: string)
      requires Valid()
      modifies this
      ensures index == old(index)[key := old(|file|)] && old(|file|) <= |file| && position <= |file|
      ensures Served(file, index[key]) == ad <==> NewlineFree(ad) && (ad == [] || ad[0] != '*')
      ensures forall q :: q in old(stored) && q != key ==>
        q in index && index[q] <= |file| && Served(file, index[q]) == old(stored)[q]
      ensures Live(ad) && keyOf(ad) == key ==> Valid() && stored == old(stored)[key := ad]
    {
      RemovedAndAdded(stored, key, ad);
      var _ := DeleteFromStorageFile(key);
      Append(key, ad);
    }

    /** The part of WriteBack after the deletion. */
    method Append(key: string, ad: string)
      requires Valid() && key !in index
      modifies this
      ensures index == old(index)[key := old(|file|)] && file == old(file) + ad + ['\n'] && position <= |file|
      ensures Served(file, old(|file|)) == ad <==> NewlineFree(ad) && (ad == [] || ad[0] != '*')
      ensures forall q :: q in old(stored) ==> q in index && index[q] <= |file| && Served(file, index[q]) == old(stored)[q]
      ensures Live(ad) && keyOf(ad) == key ==> Valid() && stored == old(stored)[key := ad]
    {
      if Live(ad) && keyOf(ad) == key {
        AddToStore(keyOf, file, index, lines, stored, ad);
      }
      AppendServes(keyOf, file, index, lines, stored, ad);
      position := |file|;
      index := index[key := position];
      Write(ad + ['\n']);
      lines, stored := lines + [ad], stored[key := ad];
    }

    /** The next entry that is not starred: its offset and key, or None at the end. */
    method ReadStorageEntry() returns (entry: Option<(nat, string)>)
      requires position <= |file|
      modifies this`position
      ensures position <= |file|
      ensures forall found ::
        Rescan(keyOf, file, old(position), found) ==
          if entry.None? then found else Rescan(keyOf, file, position, found[entry.value.1 := entry.value.0])
      ensures entry.Some? ==> old(position) < position
    {
      var offset := position;
      var line := ReadLine();
      while line != [] && line[0] == '*'
        invariant old(position) <= offset <= |file| && line == LineAt(file, offset) && position == After(file, offset)
        invariant forall found :: Rescan(keyOf, file, old(position), found) == Rescan(keyOf, file, offset, found)
        decreases |file| - offset
      {
        offset := position;
        line := ReadLine();
      }
      entry := if line == [] then None else Some((offset, keyOf(line)));
    }

    /** The scan at the start of InitializeFromLog. On a file that this object left it gives the
        same index. */
    method BuildIndex()
      modifies this`position, this`index
      ensures index == Rescan(keyOf, file, 0, map[])
      ensures old(Valid()) ==> Valid() && index == old(index)
    {
      position, index := 0, map[];
      var more := true;
      while more
        invariant position <= |file|
        invariant Rescan(keyOf, file, 0, map[]) == if more then Rescan(keyOf, file, position, index) else index
        decreases more, |file| - position
      {
        var entry := ReadStorageEntry();
        more := entry.Some?;
        if more {
          index := index[entry.value.1 := entry.value.0];
        }
      }
      if file == Flat(lines) && AllLines(lines) && Indexes(keyOf, lines, old(index)) {
        RescanRebuilds(keyOf, lines, old(index));
      }
    }

    /** The next key in a walk over the index. */
    method NextKey(todo: set<string>) returns (k: string)
      requires todo != {}
      ensures k in todo && forall q :: q in todo && q != k ==> KeyLess(k, q)
    {
      ghost var least := LeastKey(todo);
      k :| k in todo && forall q :: q in todo && q != k ==> KeyLess(k, q);
    }

    /** The line that the index names for a key. */
    method CopyEntry(k: string, newIndex: map<string, nat>) returns (m: string)
      requires Valid() && k in index && k in newIndex && newIndex[k] == index[k]
      modifies this`position
      ensures position <= |file| && k in stored && m == stored[k] && Live(m) && keyOf(m) == k
    {
      ghost var j := ReadsStored(keyOf, lines, index, stored, k);
      position := newIndex[k];
      m := ReadLine();
    }

    /** The copying loop: lines go to the new file in the order of their keys. */
    method CopyLines(temp: string)
      returns (newFile: string, newIndex: map<string, nat>, ghost newLines: seq<string>, ghost moved: map<string, nat>)
      requires Valid()
      modifies this`position
      ensures Valid()
      ensures Copying(keyOf, stored, index, temp, newFile, |Flat(newLines)|, newIndex, newLines, moved, {})
      ensures InOrder(keyOf, newLines, {})
    {
      newFile, newIndex, newLines, moved := temp, index, [], map[];
      var curSet: nat, todo: set<string> := 0, index.Keys;
      assert temp + [] == temp;
      while todo != {}
        invariant position <= |file|
        invariant Copying(keyOf, stored, index, temp, newFile, curSet, newIndex, newLines, moved, todo)
        invariant InOrder(keyOf, newLines, todo)
      {
        var k := NextKey(todo);
        var m := CopyEntry(k, newIndex);
        InOrderStep(keyOf, newLines, todo, m);
        CopyingStep(keyOf, stored, index, temp, newFile, curSet, newIndex, newLines, moved, todo, k);
        if m[0] != '*' {
          newFile := newFile + (m + ['\n']);
          newIndex := newIndex[k := curSet];
          moved, newLines := moved[k := curSet], newLines + [m];
          curSet := curSet + |m| + 1;
        }
        todo := todo - {k};
      }
    }

    /** Copies the lines that the index names to a temporary file, notes their offsets there and
        renames that file to the storage file. `temp` is what the temporary file held before.
        The object goes on with its old file, where the new offsets are right if and only if its
        live lines came first and in the order of their keys. */
    method TruncateStorageFile(temp: string) returns (newFile: string, ghost newLines: seq<string>)
      requires Valid()
      modifies this`position, this`index
      ensures newFile == temp + Flat(newLines) && AllLines(newLines) && AllStored(keyOf, stored, newLines)
      ensures Indexes(keyOf, newLines, index) && Stores(keyOf, newLines, index, stored)
      ensures KeysIncrease(keyOf, newLines)
      ensures ServesAll(file, index, stored) <==> newLines <= lines
      ensures ServesAll(file, index, stored) <==> LiveFirst(keyOf, lines)
    {
      ghost var moved;
      var newIndex;
      newFile, newIndex, newLines, moved := CopyLines(temp);
      AllCopied(keyOf, stored, newLines, moved, index, newIndex);
      OldFileServesIff(keyOf, file, index, lines, stored, newLines, newIndex);
      index := newIndex;
    }
  }

  /** The state of the copying loop: the lines copied with their index, and the new file and
      offsets. */
  ghost predicate Copying(keyOf: string -> string, stored: map<string, string>, index: map<string, nat>,
                          temp: string, newFile: string, curSet: nat, newIndex: map<string, nat>,
                          copied: seq<string>, moved: map<string, nat>, todo: set<string>)
  {
    && todo <= index.Keys
    && newFile == temp + Flat(copied) && curSet == |Flat(copied)|
    && Copied(keyOf, stored, copied, moved, todo)
    && Rewritten(index, moved, newIndex)
    && forall k :: k in todo ==> newIndex[k] == index[k]
  }

  lemma CopyingStep(keyOf: string -> string, stored: map<string, string>, index: map<string, nat>,
                    temp: string, newFile: string, curSet: nat, newIndex: map<string, nat>,
                    copied: seq<string>, moved: map<string, nat>, todo: set<string>, k: string)
    requires Copying(keyOf, stored, index, temp, newFile, curSet, newIndex, copied, moved, todo)
    requires k in todo && k in stored && Live(stored[k]) && keyOf(stored[k]) == k
    ensures
      var m := stored[k];
      Copying(keyOf, stored, index, temp, newFile + (m + ['\n']), curSet + |m| + 1, newIndex[k := curSet],
              copied + [m], moved[k := curSet], todo - {k})
  {
    CopyStep(keyOf, stored, copied, moved, todo, k);
    RewriteStep(index, moved, newIndex, k, curSet);
    FileGrows(temp, Flat(copied), stored[k]);
  }

  lemma AllCopied(keyOf: string -> string, stored: map<string, string>, copied: seq<string>, moved: map<string, nat>,
                  index: map<string, nat>, newIndex: map<string, nat>)
    requires Copied(keyOf, stored, copied, moved, {}) && Rewritten(index, moved, newIndex) && index.Keys == stored.Keys
    ensures Indexes(keyOf, copied, newIndex) && Stores(keyOf, copied, newIndex, stored)
  {
    assert moved.Keys == stored.Keys;
    AllRewritten(index, moved, newIndex);
  }

  /** An index whose offsets for the moved keys are replaced. */
  ghost predicate Rewritten(index: map<string, nat>, moved: map<string, nat>, newIndex: map<string, nat>)
  {
    && moved.Keys <= index.Keys == newIndex.Keys
    && forall k :: k in index ==> newIndex[k] == if k in moved then moved[k] else index[k]
  }

  lemma RewriteStep(index: map<string, nat>, moved: map<string, nat>, newIndex: map<string, nat>, k: string, offset: nat)
    requires Rewritten(index, moved, newIndex) && k in index
    ensures Rewritten(index, moved[k := offset], newIndex[k := offset])
  {
  }

  lemma AllRewritten(index: map<string, nat>, moved: map<string, nat>, newIndex: map<string, nat>)
    requires Rewritten(index, moved, newIndex) && index.Keys == moved.Keys
    ensures newIndex == moved
  {
  }

  lemma FileGrows(temp: string, file: string, m: string)
    ensures temp + file + (m + ['\n']) == temp + (file + (m + ['\n']))
  {
  }

  // ---------- runs ----------

  datatype FileOperation = WriteAd(key: string, ad: string) | DeleteAd(key: string)

  predicate Storable(keyOf: string -> string, op: FileOperation)
  {
    op.WriteAd? ==> Live(op.ad) && keyOf(op.ad) == op.key
  }

  /** The map that a run of operations makes. */
  function Replay(ops: seq<FileOperation>, m: map<string, string>): map<string, string>
    decreases |ops|
  {
    if ops == [] then m
    else
      var before := Replay(ops[..|ops| - 1], m);
      match ops[|ops| - 1]
      case WriteAd(key, ad) => before[key := ad]
      case DeleteAd(key) => before - {key}
  }

  /** After any run the file and its index hold what the map holds, a scan finds the same index,
      and every key of the map is read back. */
  method Run(f: IndexFile, ops: seq<FileOperation>)
    requires f.Valid() && forall i :: 0 <= i < |ops| ==> Storable(f.keyOf, ops[i])
    modifies f
    ensures f.Valid() && f.stored == Replay(ops, old(f.stored))
    ensures f.index.Keys == f.stored.Keys
    ensures Rescan(f.keyOf, f.file, 0, map[]) == f.index
    ensures forall k :: k in f.index ==> f.index[k] <= |f.file| && Served(f.file, f.index[k]) == f.stored[k]
  {
    for i := 0 to |ops|
      invariant f.Valid() && f.stored == Replay(ops[..i], old(f.stored))
    {
      assert ops[..i + 1][..i] == ops[..i];
      match ops[i] {
        case WriteAd(key, ad) => f.WriteBack(key, ad);
        case DeleteAd(key) => var _ := f.DeleteFromStorageFile(key);
      }
    }
    assert ops[..|ops|] == ops;
    RescanRebuilds(f.keyOf, f.lines, f.index);
    forall k | k in f.index ensures f.index[k] <= |f.file| && Served(f.file, f.index[k]) == f.stored[k] {
      var j := ReadsStored(f.keyOf, f.lines, f.index, f.stored, k);
    }
  }

  // ---------- a temporary file that was not empty ----------

  /** What the scan finds from line `j` on: nothing new without a live line, every live line's
      key, and the last line where it is. */
  lemma {:induction false} RescanFinds(keyOf: string -> string, lines: seq<string>, j: nat, found: map<string, nat>)
    requires AllLines(lines) && j <= |lines|
    ensures Start(lines, j) <= |Flat(lines)|
    ensures
      var r := Rescan(keyOf, Flat(lines), Start(lines, j), found);
      && found.Keys <= r.Keys
      && ((forall i :: j <= i < |lines| ==> !Live(lines[i])) ==> r == found)
      && (forall i :: j <= i < |lines| && Live(lines[i]) ==> keyOf(lines[i]) in r)
      && (j < |lines| && Live(lines[|lines| - 1]) ==>
           keyOf(lines[|lines| - 1]) in r && r[keyOf(lines[|lines| - 1])] == Start(lines, |lines| - 1))
    decreases |lines| - j
  {
    if j == |lines| {
      assert lines[..j] == lines;
    } else {
      AfterLine(lines, j);
      LineAtStart(lines, j);
      var next := if Live(lines[j]) then found[keyOf(lines[j]) := Start(lines, j)] else found;
      RescanFinds(keyOf, lines, j + 1, next);
      if j + 1 == |lines| {
        assert lines[..j + 1] == lines;
        assert Rescan(keyOf, Flat(lines), Start(lines, j + 1), next) == next;
      }
    }
  }

  /** After a truncation into a temporary file that still held lines, a restart finds the
      rewritten index exactly when there were none, or nothing was copied and none of them is
      live. */
  lemma RestartAfterTruncationIff(keyOf: string -> string, leftover: seq<string>, copied: seq<string>,
                                  index: map<string, nat>)
    requires AllLines(leftover) && Indexes(keyOf, copied, index)
    requires forall j :: 0 <= j < |copied| ==> Live(copied[j])
    ensures Rescan(keyOf, Flat(leftover) + Flat(copied), 0, map[]) == index <==>
      leftover == [] || (copied == [] && forall i :: 0 <= i < |leftover| ==> !Live(leftover[i]))
  {
    if leftover == [] {
      RestartClean(keyOf, copied, index);
    } else if copied == [] {
      RestartOnLeftover(keyOf, leftover, index);
    } else {
      RestartOnBoth(keyOf, leftover, copied, index);
    }
  }

  lemma RestartClean(keyOf: string -> string, copied: seq<string>, index: map<string, nat>)
    requires Indexes(keyOf, copied, index) && AllLines(copied)
    ensures Rescan(keyOf, Flat([]) + Flat(copied), 0, map[]) == index
  {
    assert Flat([]) + Flat(copied) == Flat(copied);
    RescanRebuilds(keyOf, copied, index);
  }

  lemma RestartOnLeftover(keyOf: string -> string, leftover: seq<string>, index: map<string, nat>)
    requires AllLines(leftover) && Indexes(keyOf, [], index)
    ensures Rescan(keyOf, Flat(leftover) + Flat([]), 0, map[]) == index <==>
      forall i :: 0 <= i < |leftover| ==> !Live(leftover[i])
  {
    assert Flat(leftover) + Flat([]) == Flat(leftover);
    assert index == map[];
    assert leftover[..0] == [];
    RescanFinds(keyOf, leftover, 0, map[]);
  }

  /** The last copied line is found behind the leftover lines. */
  lemma RestartOnBoth(keyOf: string -> string, leftover: seq<string>, copied: seq<string>, index: map<string, nat>)
    requires AllLines(leftover) && AllLines(copied) && leftover != [] && copied != [] && Live(copied[|copied| - 1])
    requires Indexes(keyOf, copied, index)
    ensures Rescan(keyOf, Flat(leftover) + Flat(copied), 0, map[]) != index
  {
    var lines, last := leftover + copied, |copied| - 1;
    FlatAppended(leftover, copied);
    assert lines[..0] == [];
    RescanFinds(keyOf, lines, 0, map[]);
    assert lines[|lines| - 1] == copied[last];
    StartBehind(leftover, copied, last);
  }

  lemma StartBehind(leftover: seq<string>, copied: seq<string>, j: nat)
    requires j <= |copied| && leftover != []
    ensures Start(leftover + copied, |leftover| + j) == |Flat(leftover)| + Start(copied, j) > Start(copied, j)
  {
    assert (leftover + copied)[..|leftover| + j] == leftover + copied[..j];
    FlatAppended(leftover, copied[..j]);
  }

  /** An input: an ad is written, and replaced by another under its key. The object's old file
      holds the starred line and the new one, its new file the new one alone; at the new offset
      the old file gives nothing. */
  lemma OldFileAfterTruncation(keyOf: string -> string, a: string, b: string)
    requires Live(a) && Live(b) && keyOf(a) == keyOf(b)
    ensures
      var k, old', new' := keyOf(b), [Starred(a), b], [b];
      && IsStore(keyOf, Flat(old'), map[k := |a| + 1], old', map[k := b])
      && IsStore(keyOf, Flat(new'), map[k := 0], new', map[k := b])
      && !LiveFirst(keyOf, old') && Served(Flat(old'), 0) == [] && Served(Flat(new'), 0) == b
  {
    var k, before, after := keyOf(b), [Starred(a), b], [b];
    assert before[..0] == [] && after[..0] == [] && before[..1] == [Starred(a)];
    assert Flat([Starred(a)]) == Starred(a) + ['\n'] + Flat([]);
    LineAtStart(before, 0);
    LineAtStart(after, 0);
    assert LiveUnder(keyOf, before, 1, k) && LiveUnder(keyOf, after, 0, k);
    assert !Live(before[0]) && Live(before[1]);
  }
}
