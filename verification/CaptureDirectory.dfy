/** Which files of a directory are read and in which order (the constructor in
    common/capture_reader.cpp), and what a written capture reads back as. */
module CaptureDirectories {
  import opened Bytes
  import opened CaptureFiles
  import opened SegmentNames
  import opened CaptureSegments

  datatype Entry = NotRegular | Regular(file: File)

  type Directory = map<string, Entry>

  /** path::extension() == ".bin": a leading dot alone does not start an extension. */
  predicate HasBinExtension(name: string) {
    |name| > 4 && name[|name| - 4..] == ".bin"
  }

  /** A name has the extension if something stands before it. */
  lemma BinNames(stem: string)
    ensures HasBinExtension(stem + ".bin") <==> |stem| > 0
  {
  }

  predicate IsCapture(directory: Directory, name: string) {
    name in directory && directory[name].Regular? && HasBinExtension(name)
  }

  ghost predicate Ascending(names: seq<string>) {
    forall i, j :: 0 <= i < j < |names| ==> Less(names[i], names[j])
  }

  ghost predicate Distinct(names: seq<string>) {
    forall i, j :: 0 <= i < j < |names| ==> names[i] != names[j]
  }

  /** Puts a new name into its place. */
  function Insert(names: seq<string>, name: string): seq<string> {
    if |names| == 0 then [name]
    else if Less(name, names[0]) then [name] + names
    else [names[0]] + Insert(names[1..], name)
  }

  lemma {:induction false} InsertMembers(names: seq<string>, name: string, x: string)
    ensures x in Insert(names, name) <==> x in names || x == name
  {
    if |names| > 0 && !Less(name, names[0]) {
      InsertMembers(names[1..], name, x);
      assert names == [names[0]] + names[1..];
    }
  }

  lemma PrependKeepsOrder(first: string, names: seq<string>)
    requires Ascending(names) && forall x :: x in names ==> Less(first, x)
    ensures Ascending([first] + names)
  {
    var all := [first] + names;
    forall i, j | 0 <= i < j < |all|
      ensures Less(all[i], all[j])
    {
      assert all[j] == names[j - 1] && names[j - 1] in names;
      assert i > 0 ==> all[i] == names[i - 1];
    }
  }

  lemma {:induction false} InsertKeepsOrder(names: seq<string>, name: string)
    requires Ascending(names) && name !in names
    ensures Ascending(Insert(names, name))
  {
    if |names| > 0 {
      TailNames(names);
      if Less(name, names[0]) {
        forall x | x in names
          ensures Less(name, x)
        {
          FirstIsLeast(names, x);
          if x != names[0] {
            LessTransitive(name, names[0], x);
          }
        }
        PrependKeepsOrder(name, names);
      } else {
        LessTotal(name, names[0]);
        InsertKeepsOrder(names[1..], name);
        forall x | x in Insert(names[1..], name)
          ensures Less(names[0], x)
        {
          InsertMembers(names[1..], name, x);
          if x != name {
            FirstIsLeast(names, x);
          }
        }
        PrependKeepsOrder(names[0], Insert(names[1..], name));
      }
    }
  }

  lemma HeadIn(a: seq<string>)
    requires |a| > 0
    ensures a[0] in a
  {
  }

  /** Two ascending lists of the same names are the same list. */
  lemma {:induction false} AscendingUnique(a: seq<string>, b: seq<string>)
    requires Ascending(a) && Ascending(b)
    requires forall x :: x in a <==> x in b
    ensures a == b
  {
    if |a| == 0 {
      if |b| > 0 {
        HeadIn(b);
      }
    } else {
      HeadIn(a);
      assert |b| > 0;
      HeadIn(b);
      FirstIsLeast(a, b[0]);
      FirstIsLeast(b, a[0]);
      if a[0] != b[0] {
        LessTransitive(a[0], b[0], a[0]);
        LessIrreflexive(a[0]);
      }
      TailNames(a);
      TailNames(b);
      AscendingUnique(a[1..], b[1..]);
      assert a == [a[0]] + a[1..] && b == [b[0]] + b[1..];
    }
  }

  lemma FirstIsLeast(a: seq<string>, x: string)
    requires Ascending(a) && x in a
    ensures x == a[0] || Less(a[0], x)
  {
  }

  lemma TailNames(a: seq<string>)
    requires Ascending(a) && |a| > 0
    ensures Ascending(a[1..])
    ensures forall x :: x in a[1..] <==> x in a && x != a[0]
  {
    LessIrreflexive(a[0]);
    assert a == [a[0]] + a[1..];
    forall x | x in a[1..]
      ensures x != a[0]
    {
      assert Less(a[0], x);
    }
  }

  /** The names that are read, in name order, whatever the order of the listing. */
  method ReadOrder(directory: Directory, listing: seq<string>) returns (names: seq<string>)
    requires Distinct(listing)
    requires forall name :: name in listing <==> name in directory
    ensures Ascending(names)
    ensures forall name :: name in names <==> IsCapture(directory, name)
  {
    names := [];
    for i := 0 to |listing|
      invariant Ascending(names)
      invariant forall name :: name in names <==> IsCapture(directory, name) && name in listing[..i]
    {
      var name := listing[i];
      assert listing[..i + 1] == listing[..i] + [name];
      if directory[name].Regular? && HasBinExtension(name) {
        assert name !in listing[..i];
        InsertKeepsOrder(names, name);
        forall x
          ensures x in Insert(names, name) <==> x in names || x == name
        {
          InsertMembers(names, name, x);
        }
        names := Insert(names, name);
      }
    }
    assert listing[..|listing|] == listing;
  }

  /** The files behind the names. */
  function FilesOf(directory: Directory, names: seq<string>): (files: seq<File>)
    requires forall name :: name in names ==> IsCapture(directory, name)
    ensures |files| == |names|
  {
    if |names| == 0 then []
    else assert IsCapture(directory, names[0]); [directory[names[0]].file] + FilesOf(directory, names[1..])
  }

  // ---- reading a written capture

  function OnDisk(files: map<string, seq<byte>>): Directory {
    map name | name in files :: Regular(Readable(files[name]))
  }

  function SegmentNamesUpTo(count: nat): (names: seq<string>)
    ensures |names| == count
    ensures forall k: nat :: k < count ==> names[k] == SegmentName(k)
  {
    seq(count, k requires 0 <= k < count => SegmentName(k))
  }

  lemma NamesAreCaptures(k: nat)
    ensures HasBinExtension(SegmentName(k))
  {
  }

  /** Reading in name order is reading in writing order exactly up to a million segments. */
  lemma ReadOrderIsWriteOrder(directory: Directory, names: seq<string>, count: nat)
    requires Ascending(names)
    requires forall name :: name in names <==> IsCapture(directory, name)
    requires forall name :: IsCapture(directory, name) <==> IsSegment(name, count)
    ensures names == SegmentNamesUpTo(count) <==> count <= NAMED_IN_ORDER
  {
    hide SegmentName;
    var expected := SegmentNamesUpTo(count);
    NameOrderExactly(count);
    if count <= NAMED_IN_ORDER {
      assert Ascending(expected);
      forall name
        ensures name in names <==> name in expected
      {
        if IsSegment(name, count) {
          var k: nat :| k < count && SegmentName(k) == name;
          assert expected[k] == name;
        }
      }
      AscendingUnique(names, expected);
    } else if names == expected {
      AscendingMeansInOrder(count);
    }
  }

  lemma AscendingMeansInOrder(count: nat)
    requires Ascending(SegmentNamesUpTo(count))
    ensures InNameOrder(count)
  {
    hide SegmentName;
    var names := SegmentNamesUpTo(count);
    forall i: nat, j: nat | i < j < count
      ensures Less(SegmentName(i), SegmentName(j))
    {
      assert names[i] == SegmentName(i) && names[j] == SegmentName(j);
    }
  }

  lemma OneSegment(files: map<string, seq<byte>>, frames: seq<seq<byte>>, s: nat, k: nat)
    requires s > 0 && FullSize(frames) && First(k, s) <= |frames| && SegmentName(k) in files
    requires files[SegmentName(k)] == Content(frames, s, k)
    ensures var file := OnDisk(files)[SegmentName(k)].file;
            && FileFrames(file) + frames[Min(First(k + 1, s), |frames|)..] == frames[First(k, s)..]
            && FileTrailing(file) == 0
  {
    hide First, SegmentName;
    FirstNext(k, s);
    var from, to := First(k, s), Min(First(k + 1, s), |frames|);
    FramesOfConcat(frames[from..to], []);
    assert Content(frames, s, k) + [] == Content(frames, s, k);
    assert frames[from..] == frames[from..to] + frames[to..];
  }

  lemma RestAreCaptures(files: map<string, seq<byte>>, frames: seq<seq<byte>>, s: nat, k: nat)
    requires s > 0 && k <= SegmentCount(|frames|, s)
    requires HoldsSegments(files, frames, s, SegmentCount(|frames|, s))
    ensures forall name :: name in SegmentNamesUpTo(SegmentCount(|frames|, s))[k..] ==> IsCapture(OnDisk(files), name)
  {
    hide First, SegmentOf, SegmentName, SegmentCount;
    var rest := SegmentNamesUpTo(SegmentCount(|frames|, s))[k..];
    forall name | name in rest
      ensures IsCapture(OnDisk(files), name)
    {
      var i :| 0 <= i < |rest| && rest[i] == name;
      assert name == SegmentName(k + i);
      NamesAreCaptures(k + i);
    }
  }

  /** What segment k holds: its s frames from number k * s on, or those left for the last one. */
  lemma SegmentHolds(files: map<string, seq<byte>>, initial: map<string, seq<byte>>, frames: seq<seq<byte>>, s: nat,
                     k: nat, from: nat)
    requires s > 0 && from == k * s && from < |frames|
    requires FullSize(frames) && Holds(files, initial, frames, s)
    ensures SegmentName(k) in files
    ensures files[SegmentName(k)] == Concat(frames[from..Min(from + s, |frames|)])
    ensures FramesOf(files[SegmentName(k)]) == frames[from..Min(from + s, |frames|)]
  {
    hide First, SegmentOf, SegmentName, Holds, Concat, FramesOf, FullSize;
    FirstIs(k, s, from);
    SegmentContent(files, initial, frames, s, k);
    var part := frames[from..Min(from + s, |frames|)];
    PartFullSize(frames, from, Min(from + s, |frames|));
    FramesOfConcat(part, []);
    assert Concat(part) + [] == Concat(part);
  }

  lemma FirstIs(k: nat, s: nat, from: nat)
    requires from == k * s
    ensures First(k, s) == from
  {
  }

  lemma PartFullSize(frames: seq<seq<byte>>, from: nat, to: nat)
    requires FullSize(frames) && from <= to <= |frames|
    ensures FullSize(frames[from..to])
  {
  }

  lemma SegmentContent(files: map<string, seq<byte>>, initial: map<string, seq<byte>>, frames: seq<seq<byte>>, s: nat,
                       k: nat)
    requires s > 0 && First(k, s) < |frames| && Holds(files, initial, frames, s)
    ensures SegmentName(k) in files
    ensures files[SegmentName(k)] == Concat(frames[First(k, s)..Min(First(k, s) + s, |frames|)])
  {
    hide First, SegmentOf, SegmentName, KeepsOthers, SegmentCount;
    SegmentOfFrame(|frames|, s, k);
    FirstNext(k, s);
  }

  lemma SegmentOfFrame(n: nat, s: nat, k: nat)
    requires s > 0 && First(k, s) < n
    ensures k < SegmentCount(n, s)
  {
    hide First, SegmentOf;
    SegmentBounds(n - 1, s);
    if SegmentOf(n - 1, s) < k {
      FirstMonotone(SegmentOf(n - 1, s) + 1, k, s);
    }
  }

  /** The segments in order give back the frames, with nothing left over. */
  lemma {:induction false} SegmentsGiveFrames(files: map<string, seq<byte>>, frames: seq<seq<byte>>, s: nat, k: nat)
    requires s > 0 && FullSize(frames) && k <= SegmentCount(|frames|, s)
    requires HoldsSegments(files, frames, s, SegmentCount(|frames|, s))
    ensures First(k, s) <= |frames| || k == SegmentCount(|frames|, s)
    ensures var rest := SegmentNamesUpTo(SegmentCount(|frames|, s))[k..];
            && (forall name :: name in rest ==> IsCapture(OnDisk(files), name))
            && AllFrames(FilesOf(OnDisk(files), rest)) == frames[Min(First(k, s), |frames|)..]
            && AllTrailing(FilesOf(OnDisk(files), rest)) == 0
    decreases SegmentCount(|frames|, s) - k
  {
    hide First, SegmentOf, SegmentName;
    var count := SegmentCount(|frames|, s);
    var names := SegmentNamesUpTo(count);
    var rest := names[k..];
    RestAreCaptures(files, frames, s, k);
    hide IsCapture, Content;
    if k == count {
      CountCovers(|frames|, s);
      assert rest == [];
    } else {
      SegmentStarts(|frames|, s, k);
      SegmentsGiveFrames(files, frames, s, k + 1);
      assert rest[0] == SegmentName(k) && rest[1..] == names[k + 1..];
      OneSegment(files, frames, s, k);
    }
  }

  lemma CountCovers(n: nat, s: nat)
    requires s > 0
    ensures First(SegmentCount(n, s), s) >= n
  {
    hide First, SegmentOf;
    if n > 0 {
      SegmentBounds(n - 1, s);
    }
  }

  /** The naming bound in frames. */
  lemma CountBound(n: nat, s: nat, m: nat)
    requires s > 0
    ensures SegmentCount(n, s) <= m <==> n <= First(m, s)
  {
    hide First, SegmentOf;
    CountCovers(n, s);
    if SegmentCount(n, s) <= m {
      FirstMonotone(SegmentCount(n, s), m, s);
    } else {
      SegmentStarts(n, s, m);
    }
  }

  /** Segment round trip: frames written s to a segment, into a directory without other .bin files,
      come back as the same sequence with no trailing bytes, up to a million segments. */
  lemma WrittenReadsBack(files: map<string, seq<byte>>, initial: map<string, seq<byte>>, frames: seq<seq<byte>>,
                         s: nat, names: seq<string>)
    requires s > 0 && FullSize(frames) && Holds(files, initial, frames, s)
    requires forall name :: name in initial ==> !HasBinExtension(name)
    requires Ascending(names)
    requires forall name :: name in names <==> IsCapture(OnDisk(files), name)
    ensures names == SegmentNamesUpTo(SegmentCount(|frames|, s)) <==> |frames| <= 1_000_000 * s
    ensures |frames| <= 1_000_000 * s ==>
              && AllFrames(FilesOf(OnDisk(files), names)) == frames
              && AllTrailing(FilesOf(OnDisk(files), names)) == 0
  {
    assert First(NAMED_IN_ORDER, s) == 1_000_000 * s;
    hide First, SegmentOf, SegmentName, HasBinExtension;
    var count := SegmentCount(|frames|, s);
    forall name
      ensures IsCapture(OnDisk(files), name) <==> IsSegment(name, count)
    {
      if IsSegment(name, count) {
        var k: nat :| k < count && SegmentName(k) == name;
        NamesAreCaptures(k);
      }
    }
    ReadOrderIsWriteOrder(OnDisk(files), names, count);
    CountBound(|frames|, s, NAMED_IN_ORDER);
    SegmentsGiveFrames(files, frames, s, 0);
    FirstZero(s);
    assert SegmentNamesUpTo(count)[0..] == SegmentNamesUpTo(count);
    assert frames[0..] == frames;
  }
}
