/** The close hooks' cache: what is hashed, and when a run is skipped. */
module CloseHooks {
  import opened Wrappers

  type Byte = x: int | 0 <= x < 256

  type Bytes = seq<Byte>

  const NUL: Byte := 0
  const NEWLINE: Byte := 10

  /** One untracked file; the data is empty when it could not be read. */
  datatype Entry = Entry(path: Bytes, data: Bytes)

  datatype Tree = Tree(head: Bytes, diff: Bytes, entries: seq<Entry>)

  // ------------------------------------------------------------- the hash input

  predicate IsSpace(b: Byte) {
    b == 9 || b == NEWLINE || b == 11 || b == 12 || b == 13 || b == 32
  }

  function TrimLeft(s: Bytes): Bytes {
    if s != [] && IsSpace(s[0]) then TrimLeft(s[1..]) else s
  }

  function TrimRight(s: Bytes): Bytes {
    if s != [] && IsSpace(s[|s| - 1]) then TrimRight(s[..|s| - 1]) else s
  }

  function TrimSpace(s: Bytes): Bytes {
    TrimRight(TrimLeft(s))
  }

  /** `s` cut at every `sep`: `strings.Split(s, sep)`. */
  function Split(s: Bytes, sep: Byte): (r: seq<Bytes>)
    ensures r != []
  {
    if s == [] then [[]]
    else
      var rest := Split(s[1..], sep);
      if s[0] == sep then [[]] + rest else [[s[0]] + rest[0]] + rest[1..]
  }

  function Lines(s: Bytes): (r: seq<Bytes>)
    ensures r != []
  {
    Split(s, NEWLINE)
  }

  function EntryOf(path: Bytes, files: map<Bytes, Bytes>): Entry {
    Entry(path, if path in files then files[path] else [])
  }

  /** The untracked files that are hashed, in the order git lists them. */
  function Untracked(lines: seq<Bytes>, files: map<Bytes, Bytes>): seq<Entry> {
    if lines == [] then []
    else
      var p := TrimSpace(lines[0]);
      (if p == [] then [] else [EntryOf(p, files)]) + Untracked(lines[1..], files)
  }

  function FrameEntries(entries: seq<Entry>): Bytes {
    if entries == [] then []
    else entries[0].path + [NUL] + entries[0].data + [NUL] + FrameEntries(entries[1..])
  }

  /** The bytes fed to SHA-256. */
  function Frame(t: Tree): Bytes {
    t.head + [NUL] + t.diff + [NUL] + FrameEntries(t.entries)
  }

  lemma FrameOneEntry(path: Bytes, data: Bytes, rest: seq<Entry>)
    ensures FrameEntries([Entry(path, data)] + rest) == path + [NUL] + data + [NUL] + FrameEntries(rest)
  {
    assert ([Entry(path, data)] + rest)[1..] == rest;
  }

  /** What is hashed: HEAD and the diff, each with a zero byte after it, and for every
      further entry its path and its content in the same way. */
  lemma FrameByEntries(head: Bytes, diff: Bytes, entries: seq<Entry>, e: Entry)
    ensures Frame(Tree(head, diff, [])) == head + [0] + diff + [0]
    ensures Frame(Tree(head, diff, entries + [e]))
            == Frame(Tree(head, diff, entries)) + e.path + [0] + e.data + [0]
  {
    FrameEntriesSnoc(entries, e);
  }

  lemma {:induction false} FrameEntriesSnoc(entries: seq<Entry>, e: Entry)
    ensures FrameEntries(entries + [e]) == FrameEntries(entries) + (e.path + [NUL] + e.data + [NUL])
  {
    if entries == [] {
      assert [e][1..] == [];
    } else {
      FrameEntriesSnoc(entries[1..], e);
      assert (entries + [e])[1..] == entries[1..] + [e];
    }
  }

  /** What one listed line adds to the hash input. */
  lemma FrameLine(h: Bytes, lines: seq<Bytes>, files: map<Bytes, Bytes>)
    requires lines != []
    ensures var p := TrimSpace(lines[0]);
            var e := EntryOf(p, files);
            h + FrameEntries(Untracked(lines, files))
            == (if p == [] then h else h + p + [NUL] + e.data + [NUL]) + FrameEntries(Untracked(lines[1..], files))
  {
    hide TrimSpace, FrameEntries, EntryOf, Untracked;
    var p := TrimSpace(lines[0]);
    var rest := Untracked(lines[1..], files);
    UntrackedHead(lines, files);
    if p != [] {
      var d := EntryOf(p, files).data;
      FrameOneEntry(p, d, rest);
      Regroup(h, p, d, FrameEntries(rest));
    }
  }

  lemma UntrackedHead(lines: seq<Bytes>, files: map<Bytes, Bytes>)
    requires lines != []
    ensures var p, rest := TrimSpace(lines[0]), Untracked(lines[1..], files);
            Untracked(lines, files) == if p == [] then rest else [Entry(p, EntryOf(p, files).data)] + rest
  {
    hide TrimSpace;
    assert [] + Untracked(lines[1..], files) == Untracked(lines[1..], files);
  }

  lemma Regroup(h: Bytes, p: Bytes, d: Bytes, r: Bytes)
    ensures h + (p + [NUL] + d + [NUL] + r) == h + p + [NUL] + d + [NUL] + r
  {
  }

  /** What is read for one hash: HEAD, the diff, the list of untracked files, and the
      files that can be read. */
  datatype Work = Work(head: Bytes, diff: Bytes, list: Bytes, files: map<Bytes, Bytes>)

  function TreeOf(w: Work): Tree {
    Tree(w.head, w.diff, Untracked(Lines(w.list), w.files))
  }

  method WorktreeHashInput(head: Bytes, diff: Bytes, list: Bytes, files: map<Bytes, Bytes>) returns (h: Bytes)
    ensures h == Frame(TreeOf(Work(head, diff, list, files)))
    ensures head + [0] + diff + [0] <= h
  {
    hide TrimSpace, Lines;
    h := head + [NUL] + diff + [NUL];
    var lines := Lines(list);
    ghost var all := Frame(Tree(head, diff, Untracked(lines, files)));
    assert lines[0..] == lines;
    for i := 0 to |lines|
      invariant h + FrameEntries(Untracked(lines[i..], files)) == all
    {
      hide FrameEntries, Untracked;
      FrameLine(h, lines[i..], files);
      assert lines[i..][0] == lines[i] && lines[i..][1..] == lines[i + 1..];
      var p := TrimSpace(lines[i]);
      if p == [] {
        continue;
      }
      h := h + p + [NUL];
      if p in files {
        h := h + files[p];
      } else {
        assert h + [] == h;
      }
      h := h + [NUL];
    }
    assert h + [] == h;
  }

  // ------------------------------------------------------------ what is hashed

  const WHITE: set<int> := {9, 10, 11, 12, 13, 32}

  ghost predicate AllWhite(s: Bytes) {
    forall i :: 0 <= i < |s| ==> s[i] in WHITE
  }

  /** `t` is `s` without the white space at its ends. */
  ghost predicate IsTrimmed(s: Bytes, t: Bytes) {
    && (exists l, r :: AllWhite(l) && AllWhite(r) && s == l + t + r)
    && (t != [] ==> t[0] !in WHITE && t[|t| - 1] !in WHITE)
  }

  lemma {:induction false} TrimLeftExact(s: Bytes) returns (l: Bytes)
    ensures AllWhite(l) && s == l + TrimLeft(s) && (TrimLeft(s) != [] ==> TrimLeft(s)[0] !in WHITE)
  {
    l := [];
    if s != [] && IsSpace(s[0]) {
      var rest := TrimLeftExact(s[1..]);
      l := [s[0]] + rest;
      assert s == [s[0]] + s[1..];
    }
  }

  lemma {:induction false} TrimRightExact(s: Bytes) returns (r: Bytes)
    ensures AllWhite(r) && s == TrimRight(s) + r
    ensures TrimRight(s) != [] ==> TrimRight(s)[|TrimRight(s)| - 1] !in WHITE && TrimRight(s)[0] == s[0]
  {
    r := [];
    if s != [] && IsSpace(s[|s| - 1]) {
      var init := s[..|s| - 1];
      var rest := TrimRightExact(init);
      r := rest + [s[|s| - 1]];
      assert s == init + [s[|s| - 1]];
    }
  }

  lemma TrimSpaceExact(s: Bytes)
    ensures IsTrimmed(s, TrimSpace(s))
  {
    hide TrimLeft, TrimRight;
    var l := TrimLeftExact(s);
    var r := TrimRightExact(TrimLeft(s));
    assert s == l + TrimSpace(s) + r;
  }

  /** The pieces hold no separator, and with one between each two they are `s`. */
  ghost predicate IsSplit(s: Bytes, sep: Byte, ps: seq<Bytes>) {
    && (forall i :: 0 <= i < |ps| ==> sep !in ps[i])
    && Ended(ps, sep) == s + [sep]
  }

  /** Every piece followed by the separator. */
  function Ended(ps: seq<Bytes>, sep: Byte): Bytes {
    if ps == [] then [] else ps[0] + [sep] + Ended(ps[1..], sep)
  }

  lemma {:induction false} SplitExact(s: Bytes, sep: Byte)
    ensures IsSplit(s, sep, Split(s, sep))
  {
    if s == [] {
      assert Ended([[]], sep) == [] + [sep] + Ended([[]][1..], sep);
    } else {
      var rest, r := Split(s[1..], sep), Split(s, sep);
      SplitExact(s[1..], sep);
      assert s == [s[0]] + s[1..];
      if s[0] == sep {
        assert r[1..] == rest;
      } else {
        assert r[1..] == rest[1..];
        assert r[0] + [sep] + Ended(rest[1..], sep) == [s[0]] + (rest[0] + [sep] + Ended(rest[1..], sep));
      }
    }
  }

  /** `at` lists, in order, exactly the positions of the lines that are not blank, and
      the entries are theirs: the trimmed path, and the file's content, which is empty
      for a file that cannot be read. */
  ghost predicate AreListed(lines: seq<Bytes>, files: map<Bytes, Bytes>, entries: seq<Entry>, at: seq<nat>) {
    && |at| == |entries| && (forall i, j :: 0 <= i < j < |at| ==> at[i] < at[j])
    && (forall i :: 0 <= i < |lines| ==> (i in at <==> TrimSpace(lines[i]) != []))
    && (forall k :: 0 <= k < |at| ==>
          && at[k] < |lines| && entries[k].path == TrimSpace(lines[at[k]])
          && entries[k].data == if entries[k].path in files then files[entries[k].path] else [])
  }

  /** The entries of a list with one more line at its end. */
  lemma {:induction false} UntrackedAppend(lines: seq<Bytes>, last: Bytes, files: map<Bytes, Bytes>)
    ensures Untracked(lines + [last], files)
            == Untracked(lines, files) + if TrimSpace(last) == [] then [] else [EntryOf(TrimSpace(last), files)]
    decreases |lines|
  {
    hide TrimSpace, EntryOf;
    var all := lines + [last];
    if lines == [] {
      assert all[0] == last && all[1..] == [] && Untracked([], files) == [];
    } else {
      UntrackedAppend(lines[1..], last, files);
      assert all[0] == lines[0] && all[1..] == lines[1..] + [last];
      UntrackedHead(lines, files);
      UntrackedHead(all, files);
      hide Untracked;
    }
  }

  lemma {:induction false} UntrackedExact(lines: seq<Bytes>, files: map<Bytes, Bytes>) returns (at: seq<nat>)
    ensures AreListed(lines, files, Untracked(lines, files), at)
  {
    hide TrimSpace;
    at := [];
    if lines != [] {
      var init, last := lines[..|lines| - 1], lines[|lines| - 1];
      assert lines == init + [last];
      at := UntrackedExact(init, files);
      UntrackedAppend(init, last, files);
      ListedStep(init, last, files, Untracked(init, files), at);
      if TrimSpace(last) != [] {
        at := at + [|init|];
      }
    }
  }

  lemma ListedStep(init: seq<Bytes>, last: Bytes, files: map<Bytes, Bytes>, entries: seq<Entry>, at: seq<nat>)
    requires AreListed(init, files, entries, at)
    ensures TrimSpace(last) == [] ==> AreListed(init + [last], files, entries, at)
    ensures TrimSpace(last) != [] ==>
              AreListed(init + [last], files, entries + [EntryOf(TrimSpace(last), files)], at + [|init|])
  {
    hide TrimSpace;
    var lines := init + [last];
    assert forall i :: 0 <= i < |init| ==> lines[i] == init[i];
    assert forall k :: 0 <= k < |at| ==> at[k] in at;
    assert |init| !in at;
  }

  // ------------------------------------------------------- framing is injective

  predicate NulFree(s: Bytes) {
    NUL !in s
  }

  ghost predicate PlainEntries(entries: seq<Entry>) {
    forall i :: 0 <= i < |entries| ==> NulFree(entries[i].path) && NulFree(entries[i].data)
  }

  ghost predicate Plain(t: Tree) {
    NulFree(t.head) && NulFree(t.diff) && PlainEntries(t.entries)
  }

  lemma EmptyIffNulFirst(a: Bytes, x: Bytes)
    requires NulFree(a)
    ensures (a + [NUL] + x)[0] == NUL <==> a == []
  {
    if a != [] {
      assert a[0] in a;
    }
  }

  /** The first NUL ends the first component. */
  lemma {:induction false} ComponentUnique(a: Bytes, b: Bytes, x: Bytes, y: Bytes)
    requires NulFree(a) && NulFree(b) && a + [NUL] + x == b + [NUL] + y
    ensures a == b && x == y
  {
    var s := a + [NUL] + x;
    EmptyIffNulFirst(a, x);
    EmptyIffNulFirst(b, y);
    if a == [] {
      assert x == s[1..] && y == s[1..];
    } else {
      assert s[0] == a[0] == b[0];
      assert s[1..] == a[1..] + [NUL] + x && s[1..] == b[1..] + [NUL] + y;
      ComponentUnique(a[1..], b[1..], x, y);
      assert a == [a[0]] + a[1..] && b == [b[0]] + b[1..];
    }
  }

  lemma {:induction false} EntriesUnique(a: seq<Entry>, b: seq<Entry>)
    requires PlainEntries(a) && PlainEntries(b) && FrameEntries(a) == FrameEntries(b)
    ensures a == b
  {
    if a != [] && b != [] {
      var ra, rb := FrameEntries(a[1..]), FrameEntries(b[1..]);
      assert FrameEntries(a) == a[0].path + [NUL] + (a[0].data + [NUL] + ra);
      assert FrameEntries(b) == b[0].path + [NUL] + (b[0].data + [NUL] + rb);
      ComponentUnique(a[0].path, b[0].path, a[0].data + [NUL] + ra, b[0].data + [NUL] + rb);
      ComponentUnique(a[0].data, b[0].data, ra, rb);
      EntriesUnique(a[1..], b[1..]);
      assert a == [a[0]] + a[1..] && b == [b[0]] + b[1..];
    }
  }

  /** Two trees without NULs are hashed from the same bytes only when their HEAD,
      diff and ordered untracked files with contents are the same. */
  lemma FrameIsInjective(t: Tree, u: Tree)
    requires Plain(t) && Plain(u) && Frame(t) == Frame(u)
    ensures t == u
  {
    var ft, fu := FrameEntries(t.entries), FrameEntries(u.entries);
    assert Frame(t) == t.head + [NUL] + (t.diff + [NUL] + ft);
    assert Frame(u) == u.head + [NUL] + (u.diff + [NUL] + fu);
    ComponentUnique(t.head, u.head, t.diff + [NUL] + ft, u.diff + [NUL] + fu);
    ComponentUnique(t.diff, u.diff, ft, fu);
    EntriesUnique(t.entries, u.entries);
  }

  // -------------------------------------------------------- from the inputs to the bytes

  /** The trimmed paths of the lines that are not blank. */
  function Listed(lines: seq<Bytes>): seq<Bytes> {
    if lines == [] then []
    else (if TrimSpace(lines[0]) == [] then [] else [TrimSpace(lines[0])]) + Listed(lines[1..])
  }

  lemma {:induction false} UntrackedIsOfListed(lines: seq<Bytes>, files: map<Bytes, Bytes>)
    ensures |Untracked(lines, files)| == |Listed(lines)|
    ensures forall k :: 0 <= k < |Listed(lines)| ==>
              var p := Listed(lines)[k];
              Untracked(lines, files)[k] == Entry(p, if p in files then files[p] else [])
  {
    hide TrimSpace;
    if lines != [] {
      UntrackedIsOfListed(lines[1..], files);
    }
  }

  ghost predicate ZeroFree(s: Bytes) {
    0 !in s
  }

  /** No input holds a zero byte. */
  ghost predicate ZeroFreeWork(w: Work) {
    ZeroFree(w.head) && ZeroFree(w.diff) && ZeroFree(w.list) && forall p :: p in w.files ==> ZeroFree(w.files[p])
  }

  /** HEAD and diff agree, the same paths are listed in the same order, and each has
      the same content; a file that cannot be read counts as empty. */
  ghost predicate SameWork(w: Work, v: Work) {
    && w.head == v.head && w.diff == v.diff && Listed(Lines(w.list)) == Listed(Lines(v.list))
    && forall p :: p in Listed(Lines(w.list)) ==>
         (if p in w.files then w.files[p] else []) == (if p in v.files then v.files[p] else [])
  }

  lemma {:induction false} PieceIsWithin(ps: seq<Bytes>, sep: Byte, i: nat, b: Byte)
    requires i < |ps| && b in ps[i]
    ensures b in Ended(ps, sep)
  {
    if i > 0 {
      PieceIsWithin(ps[1..], sep, i - 1, b);
    }
  }

  lemma LinesAreZeroFree(s: Bytes, i: nat)
    requires ZeroFree(s) && i < |Lines(s)|
    ensures ZeroFree(Lines(s)[i])
  {
    hide Split, Ended;
    SplitExact(s, NEWLINE);
    forall b | b in Lines(s)[i] ensures b in s + [NEWLINE] {
      PieceIsWithin(Lines(s), NEWLINE, i, b);
    }
  }

  lemma TrimIsZeroFree(s: Bytes)
    requires ZeroFree(s)
    ensures ZeroFree(TrimSpace(s))
  {
    hide TrimSpace;
    TrimSpaceExact(s);
    var l, r :| AllWhite(l) && AllWhite(r) && s == l + TrimSpace(s) + r;
    assert forall b :: b in TrimSpace(s) ==> b in s;
  }

  lemma {:induction false} ListedAreZeroFree(lines: seq<Bytes>)
    requires forall i :: 0 <= i < |lines| ==> ZeroFree(lines[i])
    ensures forall p :: p in Listed(lines) ==> ZeroFree(p)
  {
    hide TrimSpace, ZeroFree;
    if lines != [] {
      TrimIsZeroFree(lines[0]);
      ListedAreZeroFree(lines[1..]);
    }
  }

  lemma WorkIsPlain(w: Work)
    requires ZeroFreeWork(w)
    ensures Plain(TreeOf(w))
  {
    hide Lines, Listed, Untracked;
    forall i | 0 <= i < |Lines(w.list)| ensures ZeroFree(Lines(w.list)[i]) {
      LinesAreZeroFree(w.list, i);
    }
    var lines, t := Lines(w.list), TreeOf(w);
    ListedAreZeroFree(lines);
    UntrackedIsOfListed(lines, w.files);
    forall k | 0 <= k < |t.entries| ensures NulFree(t.entries[k].path) && NulFree(t.entries[k].data) {
      assert Listed(lines)[k] in Listed(lines);
    }
  }

  lemma SameTreeIffSameWork(w: Work, v: Work)
    ensures TreeOf(w) == TreeOf(v) <==> SameWork(w, v)
  {
    hide Lines, Listed, Untracked;
    var l, m := Listed(Lines(w.list)), Listed(Lines(v.list));
    var x, y := TreeOf(w).entries, TreeOf(v).entries;
    UntrackedIsOfListed(Lines(w.list), w.files);
    UntrackedIsOfListed(Lines(v.list), v.files);
    if TreeOf(w) == TreeOf(v) {
      assert forall k :: 0 <= k < |l| ==> l[k] == x[k].path == y[k].path == m[k];
      forall p | p in l ensures (if p in w.files then w.files[p] else []) == (if p in v.files then v.files[p] else []) {
        var k :| 0 <= k < |l| && l[k] == p;
        assert x[k].data == y[k].data;
      }
    }
    if SameWork(w, v) {
      assert forall k :: 0 <= k < |l| ==> l[k] in l && x[k] == y[k];
    }
  }

  /** Without zero bytes in the inputs, two hash inputs are the same exactly when HEAD,
      diff, the listed paths and the content of every listed path are. */
  lemma SameHashInputIff(w: Work, v: Work)
    requires ZeroFreeWork(w) && ZeroFreeWork(v)
    ensures Frame(TreeOf(w)) == Frame(TreeOf(v)) <==> SameWork(w, v)
  {
    hide SameWork, TreeOf, Plain, ZeroFreeWork, Frame;
    WorkIsPlain(w);
    WorkIsPlain(v);
    SameTreeIffSameWork(w, v);
    if Frame(TreeOf(w)) == Frame(TreeOf(v)) {
      FrameIsInjective(TreeOf(w), TreeOf(v));
    }
  }

  // --------------------------------------------- what the hash input determines

  /** The NUL-free pieces of an entry: of its path, then of its content. A path or a
      content without NUL is its only piece. */
  function Tokens(entries: seq<Entry>): seq<Bytes> {
    if entries == [] then []
    else Split(entries[0].path, NUL) + Split(entries[0].data, NUL) + Tokens(entries[1..])
  }

  function AllTokens(t: Tree): seq<Bytes> {
    Split(t.head, NUL) + Split(t.diff, NUL) + Tokens(t.entries)
  }

  ghost predicate AllNulFree(ts: seq<Bytes>) {
    forall i :: 0 <= i < |ts| ==> NulFree(ts[i])
  }

  lemma {:induction false} TerminatedAppend(a: seq<Bytes>, b: seq<Bytes>)
    ensures Ended(a + b, NUL) == Ended(a, NUL) + Ended(b, NUL)
    decreases |a|
  {
    if a == [] {
      assert a + b == b;
    } else {
      TerminatedAppend(a[1..], b);
      assert (a + b)[1..] == a[1..] + b;
    }
  }

  lemma SplitTerminated(s: Bytes)
    ensures Ended(Split(s, NUL), NUL) == s + [NUL] && AllNulFree(Split(s, NUL))
  {
    hide Split, Ended;
    SplitExact(s, NUL);
  }

  lemma {:induction false} TerminatedUnique(a: seq<Bytes>, b: seq<Bytes>)
    requires AllNulFree(a) && AllNulFree(b) && Ended(a, NUL) == Ended(b, NUL)
    ensures a == b
    decreases |a|
  {
    if a != [] && b != [] {
      ComponentUnique(a[0], b[0], Ended(a[1..], NUL), Ended(b[1..], NUL));
      TerminatedUnique(a[1..], b[1..]);
      assert a == [a[0]] + a[1..] && b == [b[0]] + b[1..];
    }
  }

  lemma PairTerminated(x: Bytes, y: Bytes, ts: seq<Bytes>)
    requires AllNulFree(ts)
    ensures var all := Split(x, NUL) + Split(y, NUL) + ts;
            Ended(all, NUL) == x + [NUL] + y + [NUL] + Ended(ts, NUL) && AllNulFree(all)
  {
    hide Split, Ended;
    SplitTerminated(x);
    SplitTerminated(y);
    TerminatedAppend(Split(x, NUL), Split(y, NUL));
    TerminatedAppend(Split(x, NUL) + Split(y, NUL), ts);
    assert x + [NUL] + (y + [NUL]) + Ended(ts, NUL) == x + [NUL] + y + [NUL] + Ended(ts, NUL);
  }

  lemma {:induction false} EntriesTerminated(entries: seq<Entry>)
    ensures FrameEntries(entries) == Ended(Tokens(entries), NUL) && AllNulFree(Tokens(entries))
  {
    if entries != [] {
      hide Split;
      EntriesTerminated(entries[1..]);
      PairTerminated(entries[0].path, entries[0].data, Tokens(entries[1..]));
    }
  }

  /** For any two trees, NULs anywhere: the hash inputs are the same exactly when the
      pieces are. */
  lemma SameFrameIffSameTokens(t: Tree, u: Tree)
    ensures Frame(t) == Frame(u) <==> AllTokens(t) == AllTokens(u)
  {
    hide Split, Tokens, Ended, FrameEntries;
    EntriesTerminated(t.entries);
    EntriesTerminated(u.entries);
    PairTerminated(t.head, t.diff, Tokens(t.entries));
    PairTerminated(u.head, u.diff, Tokens(u.entries));
    if Frame(t) == Frame(u) {
      TerminatedUnique(AllTokens(t), AllTokens(u));
    }
  }

  lemma {:induction false} SplitPlain(s: Bytes)
    requires NulFree(s)
    ensures Split(s, NUL) == [s]
  {
    if s != [] {
      SplitPlain(s[1..]);
      assert s[0] in s && s == [s[0]] + s[1..];
    }
  }

  ghost predicate SameTokens(t: Tree, u: Tree) {
    t.head == u.head && t.diff == u.diff && Tokens(t.entries) == Tokens(u.entries)
  }

  /** HEAD, diff and the untracked paths hold no NUL; file contents may. */
  ghost predicate NamesPlain(t: Tree) {
    NulFree(t.head) && NulFree(t.diff) && forall i :: 0 <= i < |t.entries| ==> NulFree(t.entries[i].path)
  }

  /** With any file contents, two trees collide exactly when HEAD and diff agree and
      so do the paths, each followed by the pieces of its content. */
  lemma CollideIff(t: Tree, u: Tree)
    requires NamesPlain(t) && NamesPlain(u)
    ensures Frame(t) == Frame(u) <==> SameTokens(t, u)
  {
    hide Split, Tokens, Frame;
    SameFrameIffSameTokens(t, u);
    SplitPlain(t.head);
    SplitPlain(t.diff);
    SplitPlain(u.head);
    SplitPlain(u.diff);
    var a, b := AllTokens(t), AllTokens(u);
    assert a[0] == t.head && a[1] == t.diff && a[2..] == Tokens(t.entries);
    assert b[0] == u.head && b[1] == u.diff && b[2..] == Tokens(u.entries);
  }

  /** A family of collisions between trees that differ: one file whose content frames
      a second path and content hashes like the two files. */
  lemma NulContentCollides(head: Bytes, diff: Bytes, p: Bytes, a: Bytes, q: Bytes, b: Bytes, rest: seq<Entry>)
    ensures var one := Tree(head, diff, [Entry(p, a + [NUL] + q + [NUL] + b)] + rest);
            var two := Tree(head, diff, [Entry(p, a), Entry(q, b)] + rest);
            one != two && Frame(one) == Frame(two)
  {
    var one := [Entry(p, a + [NUL] + q + [NUL] + b)] + rest;
    var two := [Entry(p, a), Entry(q, b)] + rest;
    var r := FrameEntries(rest);
    assert |one| != |two|;
    FrameOneEntry(p, a + [NUL] + q + [NUL] + b, rest);
    FrameOneEntry(q, b, rest);
    FrameOneEntry(p, a, [Entry(q, b)] + rest);
    assert two == [Entry(p, a)] + ([Entry(q, b)] + rest);
    hide FrameEntries;
    assert FrameEntries(two) == p + [NUL] + a + [NUL] + (q + [NUL] + b + [NUL] + r);
    assert FrameEntries(one) == p + [NUL] + (a + [NUL] + q + [NUL] + b) + [NUL] + r;
    assert FrameEntries(one) == FrameEntries(two);
  }

  // ------------------------------------------------------------------- the cache

  datatype Step = Step(intentSkip: bool, succeeds: bool)

  /** One call: the steps configured, the branch, and the tree at the start (none
      when the root or the hash could not be found). */
  datatype Invocation = Invocation(steps: seq<Step>, branch: string, tree: Option<Tree>)

  /** `executed` are the indices of the steps that ran. */
  datatype Outcome = NoSteps | Skipped | Failed(step: nat) | Completed(executed: seq<nat>)

  predicate IsWorkerBranch(branch: string) {
    !(branch == "" || branch == "HEAD" || branch == "dev" || branch == "main")
  }

  predicate Runs(inv: Invocation, i: nat)
    requires i < |inv.steps|
  {
    !(IsWorkerBranch(inv.branch) && inv.steps[i].intentSkip)
  }

  /** A step is dropped only as an intent step on a branch with a name of its own. */
  lemma RunsUnlessIntent(inv: Invocation, i: nat)
    requires i < |inv.steps|
    ensures Runs(inv, i) <==> !inv.steps[i].intentSkip || inv.branch in {"", "HEAD", "dev", "main"}
  {
  }

  /** Running the steps from `i` on. */
  function RunSteps(inv: Invocation, i: nat, executed: seq<nat>): Outcome
    requires i <= |inv.steps|
    decreases |inv.steps| - i
  {
    if i == |inv.steps| then Completed(executed)
    else if !Runs(inv, i) then RunSteps(inv, i + 1, executed)
    else if !inv.steps[i].succeeds then Failed(i)
    else RunSteps(inv, i + 1, executed + [i])
  }

  function Hash(sha: Bytes -> string, inv: Invocation): Option<string> {
    if inv.tree.Some? then Some(sha(Frame(inv.tree.value))) else None
  }

  /** The outcome of a call, and the cache after it. */
  function Call(sha: Bytes -> string, cache: Option<string>, inv: Invocation): (Outcome, Option<string>) {
    var h := Hash(sha, inv);
    if inv.steps == [] then (NoSteps, cache)
    else if h.Some? && cache == h then (Skipped, cache)
    else
      var o := RunSteps(inv, 0, []);
      (o, if o.Completed? && h.Some? then h else cache)
  }

  /** Cache and outcomes after a history of calls on a clone without a cache file. */
  function CacheAfter(sha: Bytes -> string, invs: seq<Invocation>): Option<string> {
    if invs == [] then None
    else Call(sha, CacheAfter(sha, invs[..|invs| - 1]), invs[|invs| - 1]).1
  }

  function OutcomeAt(sha: Bytes -> string, invs: seq<Invocation>, i: nat): Outcome
    requires i < |invs|
  {
    Call(sha, CacheAfter(sha, invs[..i]), invs[i]).0
  }

  /** Call `j` hashed its tree, and the steps it executed all succeeded. */
  ghost predicate Good(sha: Bytes -> string, invs: seq<Invocation>, j: nat)
    requires j < |invs|
  {
    invs[j].tree.Some? && OutcomeAt(sha, invs, j).Completed?
  }

  /** Call `j` is the last good one before `i`. */
  ghost predicate LastGood(sha: Bytes -> string, invs: seq<Invocation>, i: nat, j: nat)
    requires i <= |invs|
  {
    j < i && Good(sha, invs, j) && forall k :: j < k < i ==> !Good(sha, invs, k)
  }

  lemma CacheStep(sha: Bytes -> string, invs: seq<Invocation>, i: nat)
    requires i < |invs|
    ensures CacheAfter(sha, invs[..i + 1])
            == if Good(sha, invs, i) then Hash(sha, invs[i]) else CacheAfter(sha, invs[..i])
  {
    hide Hash, RunSteps;
    assert invs[..i + 1][..i] == invs[..i] && invs[..i + 1][i] == invs[i];
    HashIffTree(sha, invs[i]);
  }

  lemma HashIffTree(sha: Bytes -> string, inv: Invocation)
    ensures Hash(sha, inv).Some? <==> inv.tree.Some?
  {
  }

  lemma {:induction false} CacheIsLastGood(sha: Bytes -> string, invs: seq<Invocation>, i: nat)
    requires i <= |invs|
    ensures forall j: nat :: LastGood(sha, invs, i, j) ==> CacheAfter(sha, invs[..i]) == Hash(sha, invs[j])
    ensures CacheAfter(sha, invs[..i]).Some? ==> exists j: nat :: LastGood(sha, invs, i, j)
  {
    hide Good, Hash;
    if i > 0 {
      CacheIsLastGood(sha, invs, i - 1);
      CacheStep(sha, invs, i - 1);
      hide CacheAfter;
      if Good(sha, invs, i - 1) {
        assert LastGood(sha, invs, i, i - 1);
        assert forall j: nat :: LastGood(sha, invs, i, j) ==> j == i - 1;
      } else {
        if CacheAfter(sha, invs[..i - 1]).Some? {
          var j: nat :| LastGood(sha, invs, i - 1, j);
          assert LastGood(sha, invs, i, j);
        }
        assert forall j: nat :: LastGood(sha, invs, i, j) ==> LastGood(sha, invs, i - 1, j);
      }
    }
  }

  ghost predicate Injective(sha: Bytes -> string) {
    forall x, y :: sha(x) == sha(y) ==> x == y
  }

  /** A call is skipped exactly when it has steps and its hash is in the cache. */
  lemma SkippedIffCached(sha: Bytes -> string, invs: seq<Invocation>, i: nat)
    requires i < |invs|
    ensures OutcomeAt(sha, invs, i) == Skipped
            <==> invs[i].steps != [] && invs[i].tree.Some? && CacheAfter(sha, invs[..i]) == Hash(sha, invs[i])
  {
    hide CacheAfter, Frame, Ran;
    RanNone(invs[i]);
    RunStepsExact(invs[i], 0, []);
  }

  /** Taking SHA-256 as injective, for any history and trees with NULs anywhere: a
      call with steps is skipped exactly when its tree has the pieces of the tree at
      the start of the last call that hashed its tree and whose executed steps all
      succeeded. */
  lemma SkippedIffSamePieces(sha: Bytes -> string, invs: seq<Invocation>, i: nat)
    requires Injective(sha) && i < |invs|
    ensures OutcomeAt(sha, invs, i) == Skipped
            <==> invs[i].steps != [] && invs[i].tree.Some?
                 && exists j: nat :: LastGood(sha, invs, i, j)
                                     && AllTokens(invs[i].tree.value) == AllTokens(invs[j].tree.value)
  {
    hide CacheAfter, Frame, AllTokens, OutcomeAt;
    CacheIsLastGood(sha, invs, i);
    SkippedIffCached(sha, invs, i);
    if invs[i].tree.Some? {
      forall j: nat | LastGood(sha, invs, i, j)
        ensures CacheAfter(sha, invs[..i]) == Hash(sha, invs[i])
                <==> AllTokens(invs[i].tree.value) == AllTokens(invs[j].tree.value)
      {
        SameFrameIffSameTokens(invs[i].tree.value, invs[j].tree.value);
      }
    }
  }

  /** For trees whose HEAD, diff and paths hold no NUL, up to this call: skipped
      exactly when HEAD and diff are those of the last good call, and so are the
      paths with the pieces of their contents. */
  lemma SkippedIffSameTokens(sha: Bytes -> string, invs: seq<Invocation>, i: nat)
    requires Injective(sha) && i < |invs|
    requires forall k :: 0 <= k <= i && invs[k].tree.Some? ==> NamesPlain(invs[k].tree.value)
    ensures OutcomeAt(sha, invs, i) == Skipped
            <==> invs[i].steps != [] && invs[i].tree.Some?
                 && exists j: nat :: LastGood(sha, invs, i, j) && SameTokens(invs[i].tree.value, invs[j].tree.value)
  {
    hide AllTokens, SameTokens, OutcomeAt, NamesPlain;
    SkippedIffSamePieces(sha, invs, i);
    if invs[i].tree.Some? {
      forall j: nat | LastGood(sha, invs, i, j)
        ensures SameTokens(invs[i].tree.value, invs[j].tree.value)
                <==> AllTokens(invs[i].tree.value) == AllTokens(invs[j].tree.value)
      {
        SameFrameIffSameTokens(invs[i].tree.value, invs[j].tree.value);
        CollideIff(invs[i].tree.value, invs[j].tree.value);
      }
    }
  }

  /** Without NULs in the trees up to this call: skipped exactly when the tree is the
      one at the start of the last good call. */
  lemma SkippedIffTreeUnchanged(sha: Bytes -> string, invs: seq<Invocation>, i: nat)
    requires Injective(sha) && i < |invs|
    requires forall k :: 0 <= k <= i && invs[k].tree.Some? ==> Plain(invs[k].tree.value)
    ensures OutcomeAt(sha, invs, i) == Skipped
            <==> invs[i].steps != [] && exists j: nat :: LastGood(sha, invs, i, j) && invs[i].tree == invs[j].tree
  {
    hide AllTokens, Frame, OutcomeAt, Plain;
    SkippedIffSamePieces(sha, invs, i);
    if invs[i].tree.Some? {
      forall j: nat | LastGood(sha, invs, i, j)
        ensures AllTokens(invs[i].tree.value) == AllTokens(invs[j].tree.value) <==> invs[i].tree == invs[j].tree
      {
        SameFrameIffSameTokens(invs[i].tree.value, invs[j].tree.value);
        if Frame(invs[i].tree.value) == Frame(invs[j].tree.value) {
          FrameIsInjective(invs[i].tree.value, invs[j].tree.value);
        }
      }
    }
  }

  /** From the inputs: without zero bytes in them up to this call, it is skipped exactly
      when HEAD, diff, the listed paths and their contents are those of the last good
      call. */
  lemma SkippedIffWorkUnchanged(sha: Bytes -> string, invs: seq<Invocation>, works: seq<Work>, i: nat)
    requires Injective(sha) && i < |invs| == |works|
    requires forall k :: 0 <= k <= i && invs[k].tree.Some? ==>
               invs[k].tree.value == TreeOf(works[k]) && ZeroFreeWork(works[k])
    ensures OutcomeAt(sha, invs, i) == Skipped
            <==> invs[i].steps != [] && invs[i].tree.Some?
                 && exists j: nat :: LastGood(sha, invs, i, j) && SameWork(works[i], works[j])
  {
    hide OutcomeAt, Plain, SameWork, TreeOf, ZeroFreeWork;
    forall k | 0 <= k <= i && invs[k].tree.Some? ensures Plain(invs[k].tree.value) {
      WorkIsPlain(works[k]);
    }
    SkippedIffTreeUnchanged(sha, invs, i);
    if invs[i].tree.Some? {
      forall j: nat | LastGood(sha, invs, i, j)
        ensures invs[i].tree == invs[j].tree <==> SameWork(works[i], works[j])
      {
        SameTreeIffSameWork(works[i], works[j]);
      }
    }
  }

  lemma CallStep(sha: Bytes -> string, invs: seq<Invocation>, inv: Invocation)
    ensures CacheAfter(sha, invs + [inv]) == Call(sha, CacheAfter(sha, invs), inv).1
    ensures OutcomeAt(sha, invs + [inv], |invs|) == Call(sha, CacheAfter(sha, invs), inv).0
  {
    assert (invs + [inv])[..|invs|] == invs;
  }

  ghost predicate Ascending(s: seq<nat>) {
    forall i, j :: 0 <= i < j < |s| ==> s[i] < s[j]
  }

  /** Of the first `n` steps, exactly those the branch calls for were executed, in
      order, and each succeeded. */
  ghost predicate Ran(inv: Invocation, n: nat, executed: seq<nat>)
    requires n <= |inv.steps|
  {
    && Ascending(executed)
    && (forall j :: j in executed ==> j < n)
    && (forall j :: 0 <= j < n ==> (j in executed <==> Runs(inv, j)) && (Runs(inv, j) ==> inv.steps[j].succeeds))
  }

  /** A completed call ran all its steps; a failed one stopped at the first step that
      the branch calls for and that fails. */
  ghost predicate RanSteps(inv: Invocation, o: Outcome) {
    && (o.Completed? ==> Ran(inv, |inv.steps|, o.executed))
    && (o.Failed? ==> o.step < |inv.steps| && Runs(inv, o.step) && !inv.steps[o.step].succeeds
                      && exists executed :: Ran(inv, o.step, executed))
  }

  lemma RanNone(inv: Invocation)
    ensures Ran(inv, 0, [])
  {
  }

  lemma RanStep(inv: Invocation, n: nat, executed: seq<nat>)
    requires n < |inv.steps| && Ran(inv, n, executed) && (Runs(inv, n) ==> inv.steps[n].succeeds)
    ensures Ran(inv, n + 1, if Runs(inv, n) then executed + [n] else executed)
  {
    assert forall i :: 0 <= i < |executed| ==> executed[i] in executed;
  }

  lemma {:induction false} RunStepsExact(inv: Invocation, i: nat, executed: seq<nat>)
    requires i <= |inv.steps| && Ran(inv, i, executed)
    ensures var o := RunSteps(inv, i, executed); RanSteps(inv, o) && (o.Completed? || o.Failed?)
    decreases |inv.steps| - i
  {
    hide Ran, Runs;
    if i < |inv.steps| && (Runs(inv, i) ==> inv.steps[i].succeeds) {
      RanStep(inv, i, executed);
      RunStepsExact(inv, i + 1, if Runs(inv, i) then executed + [i] else executed);
    }
  }

  // --------------------------------------------------------- what a skip vouches for

  predicate SameSteps(a: Invocation, b: Invocation) {
    |a.steps| == |b.steps| && forall k :: 0 <= k < |a.steps| ==> a.steps[k].intentSkip == b.steps[k].intentSkip
  }

  /** Every step that `inv` calls for is among those executed. */
  ghost predicate AllExecuted(inv: Invocation, executed: seq<nat>) {
    forall k :: 0 <= k < |inv.steps| && Runs(inv, k) ==> k in executed
  }

  lemma CompletedRan(sha: Bytes -> string, invs: seq<Invocation>, j: nat)
    requires j < |invs| && OutcomeAt(sha, invs, j).Completed?
    ensures Ran(invs[j], |invs[j].steps|, OutcomeAt(sha, invs, j).executed)
  {
    hide Ran, Hash, CacheAfter;
    RanNone(invs[j]);
    RunStepsExact(invs[j], 0, []);
  }

  /** Because the branch is not hashed, a skipped call vouches for every step it calls
      for exactly when it is not a call off the worker branches, skipped on account of
      one on a worker branch that dropped an intent step. */
  lemma SkipVouchesIff(sha: Bytes -> string, invs: seq<Invocation>, i: nat, j: nat)
    requires i < |invs| && OutcomeAt(sha, invs, i) == Skipped && LastGood(sha, invs, i, j)
    requires SameSteps(invs[i], invs[j])
    ensures OutcomeAt(sha, invs, j).Completed?
    ensures AllExecuted(invs[i], OutcomeAt(sha, invs, j).executed)
            <==> !(invs[j].branch !in {"", "HEAD", "dev", "main"} && invs[i].branch in {"", "HEAD", "dev", "main"}
                   && exists k :: 0 <= k < |invs[j].steps| && invs[j].steps[k].intentSkip)
  {
    CompletedRan(sha, invs, j);
    hide OutcomeAt;
    var executed := OutcomeAt(sha, invs, j).executed;
    assert forall k :: 0 <= k < |invs[j].steps| ==> (k in executed <==> Runs(invs[j], k));
    if k :| 0 <= k < |invs[j].steps| && invs[j].steps[k].intentSkip && !IsWorkerBranch(invs[i].branch) {
      assert invs[i].steps[k].intentSkip && Runs(invs[i], k);
    }
  }

  /** Such a call: the intent step is dropped on a worker branch, and on `dev` the
      unchanged tree is skipped, so the step is never run. */
  lemma SkipMissesIntentStep(sha: Bytes -> string, tree: Tree)
    ensures var steps := [Step(true, true)];
            var invs := [Invocation(steps, "worker", Some(tree)), Invocation(steps, "dev", Some(tree))];
            && OutcomeAt(sha, invs, 0) == Completed([]) && OutcomeAt(sha, invs, 1) == Skipped
            && !AllExecuted(invs[1], OutcomeAt(sha, invs, 0).executed)
  {
    hide Frame;
    var steps := [Step(true, true)];
    var first, second := Invocation(steps, "worker", Some(tree)), Invocation(steps, "dev", Some(tree));
    var invs := [first, second];
    assert invs[..0] == [] && invs[..1] == [first] && [first][..0] == [];
    assert RunSteps(first, 1, []) == Completed([]) && !Runs(first, 0);
    assert Call(sha, None, first) == (Completed([]), Hash(sha, first));
    assert Runs(second, 0);
  }

  class CloseHooks {
    const sha: Bytes -> string
    var cache: Option<string>
    ghost var calls: seq<Invocation>

    ghost predicate Valid()
      reads this
    {
      cache == CacheAfter(sha, calls)
    }

    constructor (sha: Bytes -> string)
      ensures Valid() && calls == [] && this.sha == sha
    {
      this.sha := sha;
      cache := None;
      calls := [];
    }

    /** The loop skips what the branch does not call for and stops at the first step
        that fails; only a call that completes writes the cache. */
    method RunCloseHooks(inv: Invocation) returns (o: Outcome)
      requires Valid()
      modifies this
      ensures Valid() && calls == old(calls) + [inv] && o == OutcomeAt(sha, calls, |calls| - 1)
      ensures RanSteps(inv, o)
      ensures !o.Completed? ==> cache == old(cache)
    {
      hide Ran, Frame, CacheAfter, OutcomeAt;
      calls := calls + [inv];
      CallStep(sha, old(calls), inv);
      if inv.steps == [] {
        return NoSteps;
      }
      var intent := IsWorkerBranch(inv.branch);
      var h := Hash(sha, inv);
      if h.Some? && cache == h {
        return Skipped;
      }
      RanNone(inv);
      RunStepsExact(inv, 0, []);
      var executed: seq<nat> := [];
      for i := 0 to |inv.steps|
        invariant RunSteps(inv, i, executed) == RunSteps(inv, 0, [])
      {
        if intent && inv.steps[i].intentSkip {
          continue;
        }
        if !inv.steps[i].succeeds {
          return Failed(i);
        }
        executed := executed + [i];
      }
      if h.Some? {
        cache := h;
      }
      return Completed(executed);
    }
  }
}
