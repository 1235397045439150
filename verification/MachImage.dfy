/** The loaders as the loader code runs them: buffers and mappings patched in place. */
module MachImage {
  import opened Bytes
  import opened Rdtsc
  import opened Wrappers
  import opened MachLoader
  import opened LoadersAgree

  /** A memory-to-memory copy of `bs` into `m` at `at`. */
  method WriteWord(m: array<byte>, at: nat, value: u64)
    requires at + 8 <= m.Length
    modifies m
    ensures m[..] == Splice(old(m[..]), at, LittleEndian(value, 8))
  {
    Store(m, at, LittleEndian(value, 8));
  }

  /** One fixup in the file buffer: the slot is patched, or its value is handed back for staging. */
  method PatchSlotInBuffer(info: MachInfo, work: array<byte>, f: Fixup, ghost ds: seq<Deferred>)
    returns (failed: Option<Error>, staged: seq<Deferred>)
    modifies work
    ensures PatchBuffer(info, Buffer(old(work[..]), ds), f) ==
            if failed.Some? then Failure(failed.value) else Success(Buffer(work[..], ds + staged))
  {
    failed, staged := None, [];
    assert ds + staged == ds;
    match SegmentFileOffset(info, f.segment, f.segOff, work.Length) {
      case Failure(e) => failed := Some(e);
      case Success(None) => staged := [Deferred(f.segment, f.segOff, f.value)];
      case Success(Some(off)) =>
        if off + 8 > work.Length {
          failed := Some(Crash);
        } else {
          WriteWord(work, off, Patched(f, Word(work[..], off)));
        }
    }
  }

  /** The next fixup of a list; `ds` is what the thread had staged before the list. */
  method PatchNext(info: MachInfo, work: array<byte>, f: Fixup, staged0: seq<Deferred>, ghost ds: seq<Deferred>, ghost fs: seq<Fixup>, ghost i: nat)
    returns (failed: Option<Error>, staged: seq<Deferred>)
    requires i < |fs| && fs[i] == f
    modifies work
    ensures PatchBufferAll(info, Buffer(old(work[..]), ds + staged0), fs[i..]) ==
            if failed.Some? then Failure(failed.value) else PatchBufferAll(info, Buffer(work[..], ds + staged), fs[i + 1..])
  {
    PatchBufferNext(info, Buffer(work[..], ds + staged0), fs, i);
    var err, more := PatchSlotInBuffer(info, work, f, ds + staged0);
    assert ds + (staged0 + more) == ds + staged0 + more;
    return err, staged0 + more;
  }

  /** One fixup in the mapping. */
  method PatchSlotInMapping(info: MachInfo, m: array<byte>, f: Fixup) returns (failed: Option<Error>)
    modifies m
    ensures PatchMapping(info, old(m[..]), f) == if failed.Some? then Failure(failed.value) else Success(m[..])
  {
    failed := None;
    match SegmentMapOffset(info, f.segment, f.segOff, m.Length) {
      case Failure(e) => failed := Some(e);
      case Success(off) =>
        if off + 8 > m.Length {
          failed := Some(Crash);
        } else {
          WriteWord(m, off, Patched(f, Word(m[..], off)));
        }
    }
  }

  /** What is staged when a load of `file` returns, whatever its outcome. */
  ghost function Leftover(info: MachInfo, host: Host, file: seq<byte>, loadBase: u64, pending: seq<Deferred>, mapped: bool): seq<Deferred> {
    if Span(info) == 0 then pending
    else
      match PatchBufferAll(info, Buffer(file, pending), RebaseFixups(info, loadBase))
      case Failure(_) => pending
      case Success(mid) =>
        match PatchBufferAll(info, mid, BindFixups(info, host))
        case Failure(_) => mid.deferred
        case Success(b) => if mapped then [] else b.deferred
  }

  /** The error of a load of `file`, if it fails. Which bytes are copied decides no error, so the text rewriting does not either. */
  ghost function LoadError(info: MachInfo, host: Host, file: seq<byte>, loadBase: u64, pending: seq<Deferred>, mapped: bool): Option<Error> {
    if Span(info) == 0 then Some(MapFailed)
    else
      match PatchBufferAll(info, Buffer(file, pending), Fixups(info, host, loadBase))
      case Failure(e) => Some(e)
      case Success(b) =>
        if !mapped then Some(MapFailed)
        else
          match WriteDeferredAll(Zeros(Span(info)), info, b.deferred)
          case Failure(e) => Some(e)
          case Success(d) =>
            match CopyOutAll(d, b.work, info.base, info.segments)
            case Failure(e) => Some(e)
            case Success(_) => None
  }

  lemma {:induction false} CopyErrors(m: seq<byte>, n: seq<byte>, v: seq<byte>, w: seq<byte>, base: u64, segments: seq<Segment>)
    requires |m| == |n| && |v| == |w|
    ensures var a, b := CopyOutAll(m, v, base, segments), CopyOutAll(n, w, base, segments);
            (a.Success? <==> b.Success?) && (a.Failure? ==> a.error == b.error)
    decreases |segments|
  {
    if segments != [] { CopyErrors(m, n, v, w, base, segments[..|segments| - 1]); }
  }

  /** One loading thread: the staged fixups outlive a call. */
  class LoaderThread {
    var deferred: seq<Deferred>

    constructor ()
      ensures deferred == []
    {
      deferred := [];
    }

    method ApplyRebases(info: MachInfo, work: array<byte>, loadBase: u64) returns (failed: Option<Error>)
      modifies this, work
      ensures match PatchBufferAll(info, Buffer(old(work[..]), old(deferred)), RebaseFixups(info, loadBase))
              case Success(b) => failed.None? && work[..] == b.work && deferred == b.deferred
              case Failure(e) => failed == Some(e) && deferred == old(deferred)
    {
      var staged: seq<Deferred> := [];
      ghost var fs := RebaseFixups(info, loadBase);
      ghost var start := PatchBufferAll(info, Buffer(work[..], deferred), fs);
      assert deferred + staged == deferred && fs[0..] == fs;
      var i := 0;
      while i < |info.rebases|
        invariant i <= |info.rebases|
        invariant deferred == old(deferred)
        invariant start == PatchBufferAll(info, Buffer(work[..], deferred + staged), fs[i..])
      {
        var r := info.rebases[i];
        failed, staged := PatchNext(info, work, RebaseFixup(info, loadBase, r), staged, deferred, fs, i);
        if failed.Some? {
          return;
        }
        i := i + 1;
      }
      deferred := deferred + staged;
      return None;
    }

    method ApplyBinds(info: MachInfo, work: array<byte>, host: Host) returns (failed: Option<Error>)
      modifies this, work
      ensures match PatchBufferAll(info, Buffer(old(work[..]), old(deferred)), BindFixups(info, host))
              case Success(b) => failed.None? && work[..] == b.work && deferred == b.deferred
              case Failure(e) => failed == Some(e) && deferred == old(deferred)
    {
      var staged: seq<Deferred> := [];
      ghost var fs := BindFixups(info, host);
      ghost var start := PatchBufferAll(info, Buffer(work[..], deferred), fs);
      assert deferred + staged == deferred && fs[0..] == fs;
      var i := 0;
      while i < |info.binds|
        invariant i <= |info.binds|
        invariant deferred == old(deferred)
        invariant start == PatchBufferAll(info, Buffer(work[..], deferred + staged), fs[i..])
      {
        var b := info.binds[i];
        failed, staged := PatchNext(info, work, BindFixup(host, b), staged, deferred, fs, i);
        if failed.Some? {
          return;
        }
        i := i + 1;
      }
      deferred := deferred + staged;
      return None;
    }

    /** Patch the buffer, stage the zero-fill slots, then map and copy. `mapped` is whether the mapping could be made. */
    method LoadParsed(info: MachInfo, host: Host, data: array<byte>, loadBase: u64, mapped: bool)
      returns (r: Result<array<byte>, Error>)
      modifies this, data
      ensures r.Success? ==> fresh(r.value) && BufferImage(info, host, old(data[..]), loadBase, old(deferred), r.value[..])
      ensures r.Success? <==> LoadError(info, host, old(data[..]), loadBase, old(deferred), mapped) == None
      ensures r.Failure? ==> LoadError(info, host, old(data[..]), loadBase, old(deferred), mapped) == Some(r.error)
      ensures deferred == Leftover(info, host, old(data[..]), loadBase, old(deferred), mapped)
      ensures WellFormed(info, host, old(data[..]), loadBase) && old(deferred) == [] && mapped && Span(info) > 0 ==> r.Success?
    {
      ghost var file := data[..];
      var span := Span(info);
      if span == 0 {
        return Failure(MapFailed);
      }
      PatchBufferAppend(info, Buffer(file, deferred), RebaseFixups(info, loadBase), BindFixups(info, host));
      if WellFormed(info, host, file, loadBase) { FixupsAgree(info, host, file, loadBase); }
      var failed := ApplyRebases(info, data, loadBase);
      if failed.Some? {
        return Failure(failed.value);
      }
      failed := ApplyBinds(info, data, host);
      if failed.Some? {
        return Failure(failed.value);
      }
      ghost var b := Buffer(data[..], deferred);
      assert PatchBufferAll(info, Buffer(file, old(deferred)), Fixups(info, host, loadBase)) == Success(b);
      NeutralizeRdtsc(data, info.text);
      if !mapped {
        return Failure(MapFailed);
      }
      var base := new byte[span](_ => 0);
      assert base[..] == Zeros(span);
      var staged := deferred;
      deferred := [];
      failed := WriteStaged(info, base, staged);
      if failed.Some? {
        return Failure(failed.value);
      }
      ghost var d := base[..];
      CopyErrors(d, d, b.work, data[..], info.base, info.segments);
      failed := CopySegments(info, data, base);
      if WellFormed(info, host, file, loadBase) {
        AllCopyable(info, |file|);
        CopyAll(info, d, data[..], info.segments);
      }
      if failed.Some? {
        return Failure(failed.value);
      }
      return Success(base);
    }
  }

  /** The staged values, written straight into the mapping. */
  method WriteStaged(info: MachInfo, m: array<byte>, staged: seq<Deferred>) returns (failed: Option<Error>)
    modifies m
    ensures match WriteDeferredAll(old(m[..]), info, staged)
            case Success(d) => failed.None? && m[..] == d
            case Failure(e) => failed == Some(e)
  {
    ghost var start := WriteDeferredAll(m[..], info, staged);
    var i := 0;
    while i < |staged|
      invariant i <= |staged|
      invariant start == WriteDeferredAll(m[..], info, staged[i..])
    {
      var d := staged[i];
      assert staged[i..][1..] == staged[i + 1..];
      ghost var one := WriteDeferred(m[..], info.segments, info.base, d);
      var j := 0;
      while j < |info.segments|
        invariant j <= |info.segments|
        invariant one == WriteDeferred(m[..], info.segments[j..], info.base, d)
      {
        var s := info.segments[j];
        assert info.segments[j..][1..] == info.segments[j + 1..];
        if s.name == d.segment {
          var at := Wrap64(Wrap64(s.vmaddr - info.base) + d.segOff);
          if at + 8 > m.Length { return Some(Crash); }
          WriteWord(m, at, d.value);
        }
        j := j + 1;
      }
      i := i + 1;
    }
    return None;
  }

  lemma {:induction false} CopyOutFails(m: seq<byte>, work: seq<byte>, base: u64, segments: seq<Segment>, i: nat)
    requires i <= |segments| && CopyOutAll(m, work, base, segments[..i]).Failure?
    ensures CopyOutAll(m, work, base, segments) == CopyOutAll(m, work, base, segments[..i])
    decreases |segments|
  {
    if i < |segments| {
      assert segments[..|segments| - 1][..i] == segments[..i];
      CopyOutFails(m, work, base, segments[..|segments| - 1], i);
    } else {
      assert segments[..i] == segments;
    }
  }

  method CopySegment(work: array<byte>, m: array<byte>, base: u64, s: Segment) returns (failed: Option<Error>)
    requires work != m
    modifies m
    ensures CopyOut(old(m[..]), work[..], base, s) == if failed.Some? then Failure(failed.value) else Success(m[..])
  {
    if s.Copied() {
      if Wrap64(s.fileoff + s.filesize) > work.Length {
        return Some(SegmentOutOfBounds);
      }
      var at := Wrap64(s.vmaddr - base);
      if at > m.Length || s.fileoff + Min(s.filesize, m.Length - at) > work.Length {
        return Some(Crash);
      }
      Store(m, at, work[..][s.fileoff..s.fileoff + Min(s.filesize, m.Length - at)]);
    }
    return None;
  }

  method CopySegments(info: MachInfo, work: array<byte>, m: array<byte>) returns (failed: Option<Error>)
    requires work != m
    modifies m
    ensures match CopyOutAll(old(m[..]), work[..], info.base, info.segments)
            case Success(d) => failed.None? && m[..] == d
            case Failure(e) => failed == Some(e)
  {
    var i := 0;
    while i < |info.segments|
      invariant i <= |info.segments|
      invariant CopyOutAll(old(m[..]), work[..], info.base, info.segments[..i]) == Success(m[..])
    {
      assert info.segments[..i + 1][..i] == info.segments[..i];
      failed := CopySegment(work, m, info.base, info.segments[i]);
      if failed.Some? {
        CopyOutFails(old(m[..]), work[..], info.base, info.segments, i + 1);
        return;
      }
      i := i + 1;
    }
    assert info.segments[..i] == info.segments;
    return None;
  }

  lemma {:induction false} MapInFails(m: seq<byte>, file: seq<byte>, base: u64, segments: seq<Segment>, i: nat)
    requires i <= |segments| && MapInAll(m, file, base, segments[..i]).Failure?
    ensures MapInAll(m, file, base, segments) == MapInAll(m, file, base, segments[..i])
    decreases |segments|
  {
    if i < |segments| {
      assert segments[..|segments| - 1][..i] == segments[..i];
      MapInFails(m, file, base, segments[..|segments| - 1], i);
    } else {
      assert segments[..i] == segments;
    }
  }

  /** `m` is `m0` with the first `done` bytes of `src` read in at `at`. */
  ghost predicate Received(m0: seq<byte>, m: seq<byte>, at: nat, src: seq<byte>, done: nat) {
    done <= |src| && at + done <= |m0| && m == Splice(m0, at, src[..done])
  }

  lemma ReceiveMore(m0: seq<byte>, m: seq<byte>, at: nat, src: seq<byte>, done: nat, got: nat)
    requires Received(m0, m, at, src, done) && done + got <= |src| && at + done + got <= |m0|
    ensures Received(m0, Splice(m, at + done, src[done..done + got]), at, src, done + got)
  {
  }

  /** `pread` in a loop: every call returns some non-empty part of what is left, or nothing at the end of the file. */
  method ReadAt(src: seq<byte>, m: array<byte>, at: nat, n: nat) returns (ok: bool)
    requires at + n <= m.Length && n > 0
    modifies m
    ensures ok <==> n <= |src|
    ensures ok ==> m[..] == Splice(old(m[..]), at, src[..n])
  {
    ghost var m0 := m[..];
    var done := 0;
    while done < n
      invariant done <= n && Received(m0, m[..], at, src, done)
    {
      if done >= |src| {
        return false;
      }
      var got: nat :| 1 <= got <= n - done && got <= |src| - done;
      ReceiveMore(m0, m[..], at, src, done, got);
      Store(m, at + done, src[done..done + got]);
      done := done + got;
    }
    return true;
  }

  method MapSegment(file: seq<byte>, m: array<byte>, base: u64, s: Segment) returns (failed: Option<Error>)
    modifies m
    ensures MapIn(old(m[..]), file, base, s) == if failed.Some? then Failure(failed.value) else Success(m[..])
  {
    var at := Wrap64(s.vmaddr - base);
    if s.Copied() {
      if PageMapped(m.Length, base, s) {
        Store(m, at, FileBytes(file, s.fileoff, Min(WholePages(s), m.Length - at)));
        return None;
      }
      var n := if at < m.Length then Min(s.filesize, m.Length - at) else 0;
      if n > 0 {
        var src := if s.fileoff <= |file| then file[s.fileoff..] else [];
        var ok := ReadAt(src, m, at, n);
        if !ok {
          return Some(Truncated);
        }
        assert src[..n] == file[s.fileoff..s.fileoff + n];
      }
    }
    return None;
  }

  method MapSegments(info: MachInfo, file: seq<byte>, m: array<byte>) returns (failed: Option<Error>)
    modifies m
    ensures match MapInAll(old(m[..]), file, info.base, info.segments)
            case Success(d) => failed.None? && m[..] == d
            case Failure(e) => failed == Some(e)
  {
    var i := 0;
    while i < |info.segments|
      invariant i <= |info.segments|
      invariant MapInAll(old(m[..]), file, info.base, info.segments[..i]) == Success(m[..])
    {
      assert info.segments[..i + 1][..i] == info.segments[..i];
      failed := MapSegment(file, m, info.base, info.segments[i]);
      if failed.Some? {
        MapInFails(old(m[..]), file, info.base, info.segments, i + 1);
        return;
      }
      i := i + 1;
    }
    assert info.segments[..i] == info.segments;
    return None;
  }

  lemma {:induction false} PatchMappingAppend(info: MachInfo, m: seq<byte>, fs: seq<Fixup>, gs: seq<Fixup>)
    ensures PatchMappingAll(info, m, fs + gs) ==
            (match PatchMappingAll(info, m, fs)
             case Failure(e) => Failure(e)
             case Success(mid) => PatchMappingAll(info, mid, gs))
    decreases |fs|
  {
    if fs == [] {
      assert fs + gs == gs;
    } else {
      assert (fs + gs)[1..] == fs[1..] + gs;
      match PatchMapping(info, m, fs[0])
      case Failure(_) =>
      case Success(next) => PatchMappingAppend(info, next, fs[1..], gs);
    }
  }

  method RebaseMapped(info: MachInfo, m: array<byte>, loadBase: u64) returns (failed: Option<Error>)
    modifies m
    ensures match PatchMappingAll(info, old(m[..]), RebaseFixups(info, loadBase))
            case Success(d) => failed.None? && m[..] == d
            case Failure(e) => failed == Some(e)
  {
    ghost var fs := RebaseFixups(info, loadBase);
    ghost var start := PatchMappingAll(info, m[..], fs);
    assert fs[0..] == fs;
    var i := 0;
    while i < |info.rebases|
      invariant i <= |info.rebases|
      invariant start == PatchMappingAll(info, m[..], fs[i..])
    {
      var r := info.rebases[i];
      assert fs[i] == RebaseFixup(info, loadBase, r) && fs[i..][1..] == fs[i + 1..];
      failed := PatchSlotInMapping(info, m, RebaseFixup(info, loadBase, r));
      if failed.Some? {
        return;
      }
      i := i + 1;
    }
    return None;
  }

  method BindMapped(info: MachInfo, m: array<byte>, host: Host) returns (failed: Option<Error>)
    modifies m
    ensures match PatchMappingAll(info, old(m[..]), BindFixups(info, host))
            case Success(d) => failed.None? && m[..] == d
            case Failure(e) => failed == Some(e)
  {
    ghost var fs := BindFixups(info, host);
    ghost var start := PatchMappingAll(info, m[..], fs);
    assert fs[0..] == fs;
    var i := 0;
    while i < |info.binds|
      invariant i <= |info.binds|
      invariant start == PatchMappingAll(info, m[..], fs[i..])
    {
      var b := info.binds[i];
      assert fs[i] == BindFixup(host, b) && fs[i..][1..] == fs[i + 1..];
      failed := PatchSlotInMapping(info, m, BindFixup(host, b));
      if failed.Some? {
        return;
      }
      i := i + 1;
    }
    return None;
  }

  /** Map the segments, fix them up in memory, then neutralize: by the table if it applies, else by the scan. */
  method MapAndFixup(info: MachInfo, host: Host, file: seq<byte>, loadBase: u64, havePinned: bool, pinned: seq<Row>)
    returns (r: Result<array<byte>, Error>)
    ensures r.Success? && !havePinned ==> MappedImage(info, host, file, loadBase, r.value[..])
    ensures r.Success? && havePinned ==>
              && FixedMapping(info, host, file, loadBase).Success?
              && MappedNeutralized(FixedMapping(info, host, file, loadBase).value, info.text, pinned, r.value[..])
    ensures r.Success? <==> Span(info) > 0 && FixedMapping(info, host, file, loadBase).Success?
    ensures r.Failure? ==> r.error == if Span(info) == 0 then MapFailed else FixedMapping(info, host, file, loadBase).error
    ensures WellFormed(info, host, file, loadBase) && Span(info) > 0 ==> r.Success?
  {
    var span := Span(info);
    if span == 0 {
      return Failure(MapFailed);
    }
    if WellFormed(info, host, file, loadBase) { FixupsAgree(info, host, file, loadBase); }
    var base := new byte[span](_ => 0);
    assert base[..] == Zeros(span);
    var failed := MapSegments(info, file, base);
    if failed.Some? {
      return Failure(failed.value);
    }
    PatchMappingAppend(info, base[..], RebaseFixups(info, loadBase), BindFixups(info, host));
    failed := RebaseMapped(info, base, loadBase);
    if failed.Some? {
      return Failure(failed.value);
    }
    failed := BindMapped(info, base, host);
    if failed.Some? {
      return Failure(failed.value);
    }
    NeutralizeRdtscMapped(base, info.text, havePinned, pinned);
    return Success(base);
  }
}
