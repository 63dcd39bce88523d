/** The recorder: frames are buffered, the buffer is dumped to a file, and full files are rotated. */
module Recorder {
  import opened Basics
  import opened Words
  import opened EventData
  import opened Messages
  import opened Mfm

  const MEGABYTE := 0x100000

  // The contents of the closed files, of the open file and of the buffer, as whole frames.
  datatype Recording = Recording(closed: seq<seq<Message>>, current: seq<Message>, buffered: seq<Message>) {
    // Everything recorded, in order.
    function Frames(): seq<Message> { Flatten(closed) + current + buffered }
  }

  function Dump(s: Recording, fileSize: nat): Recording {
    if |Bytes(s.current)| + |Bytes(s.buffered)| > fileSize then Recording(s.closed + [s.current], s.buffered, [])
    else Recording(s.closed, s.current + s.buffered, [])
  }

  function Record(s: Recording, fileSize: nat, frame: Message): Recording {
    var room := if |Bytes(s.buffered)| + |frame| > MEGABYTE then Dump(s, fileSize) else s;
    room.(buffered := room.buffered + [frame])
  }

  function RecordAll(s: Recording, fileSize: nat, frames: seq<Message>): Recording {
    if frames == [] then s else Record(RecordAll(s, fileSize, Init(frames)), fileSize, Last(frames))
  }

  // ---------- what holds of every run ----------

  function Max(a: nat, b: nat): nat { if a > b then a else b }

  // A file is never larger than the limit (or than one buffer, if the limit is smaller than that), and
  // a file is closed only when less than a buffer short of it.
  predicate Bounded(s: Recording, fileSize: nat) {
    && |Bytes(s.buffered)| <= MEGABYTE
    && |Bytes(s.current)| <= Max(fileSize, MEGABYTE)
    && forall f :: f in s.closed ==> fileSize - MEGABYTE < |Bytes(f)| <= Max(fileSize, MEGABYTE)
  }

  lemma RecordKeepsBounds(s: Recording, fileSize: nat, frame: Message)
    requires Bounded(s, fileSize) && |frame| <= MEGABYTE
    ensures Bounded(Record(s, fileSize, frame), fileSize)
  {
    hide Bytes;
    BytesOfNone();
    BytesConcat(s.current, s.buffered);
    BytesAppend(s.buffered, frame);
    BytesAppend([], frame);
  }

  // The buffer holds what is put into it exactly when the frame itself is no larger than the buffer.
  lemma BufferHoldsIffFrameFits(s: Recording, fileSize: nat, frame: Message)
    requires Bounded(s, fileSize)
    ensures |Bytes(Record(s, fileSize, frame).buffered)| <= MEGABYTE <==> |frame| <= MEGABYTE
  {
    hide Bytes;
    BytesOfNone();
    BytesAppend(s.buffered, frame);
    BytesAppend([], frame);
  }

  // A frame is that small exactly when its event has at most 262138 words, while the transmitter
  // sends events of up to 1048570 words.
  lemma FrameFitsIffFewWords(e: EventValue)
    ensures |Frame(e)| <= MEGABYTE <==> |Output(e.modules)| <= 262138
    ensures |Frame(e)| <= BUFFER_SIZE <==> |Output(e.modules)| <= 1048570
  {
    hide Output;
    hide Header;
  }

  // An event of one module with n data words.
  function OneModule(n: nat): EventValue {
    var data := seq(n, _ => Raw(Word(0)));
    EventValue([CLEARED_RECORD.(data := data)], Word(0), Tgv(0, 0, 0))
  }

  // One that the transmitter sends, the decoder accepts, and the recorder's buffer cannot hold.
  lemma SentButTooLarge()
    ensures var f := Frame(OneModule(262139));
            DecodeHeader(f).MfmHeader? && MEGABYTE < |f| <= BUFFER_SIZE
  {
    hide Header;
    hide DecodeHeader;
    hide ToBytes;
    hide OneModule;
    OneModuleOutput(262139);
    FrameFitsIffFewWords(OneModule(262139));
    FrameRoundTrip(OneModule(262139));
  }

  lemma OneModuleOutput(n: nat)
    requires n > 0
    ensures |Output(OneModule(n).modules)| == n + 1
  {
    FlatMapOne(OutputOf, OneModule(n).modules[0]);
  }

  // A file is closed exactly when the buffer does not fit in it any more. The buffer then goes to a new
  // file, otherwise to the end of the open one.
  lemma DumpClosesIffFull(s: Recording, fileSize: nat)
    ensures var d := Dump(s, fileSize);
            && (d.closed != s.closed <==> |Bytes(s.current + s.buffered)| > fileSize)
            && d.closed + [d.current] == (if |Bytes(s.current + s.buffered)| > fileSize
                                          then s.closed + [s.current] + [s.buffered]
                                          else s.closed + [s.current + s.buffered])
            && d.buffered == []
  {
    hide Bytes;
    BytesConcat(s.current, s.buffered);
  }

  // The buffer is dumped exactly when the frame does not fit in it any more.
  lemma RecordDumpsIffNoRoom(s: Recording, fileSize: nat, frame: Message)
    ensures Record(s, fileSize, frame)
            == if |Bytes(s.buffered + [frame])| > 1048576 then Dump(s, fileSize).(buffered := [frame])
               else s.(buffered := s.buffered + [frame])
  {
    hide Bytes;
    BytesAppend(s.buffered, frame);
  }

  lemma RecordConserves(s: Recording, fileSize: nat, frame: Message)
    ensures Record(s, fileSize, frame).Frames() == s.Frames() + [frame]
  {
    hide Bytes;
    FlattenAppend(s.closed, s.current);
    var r := Record(s, fileSize, frame);
    if |Bytes(s.buffered)| + |frame| > MEGABYTE {
      if |Bytes(s.current)| + |Bytes(s.buffered)| > fileSize {
        assert r.Frames() == Flatten(s.closed) + s.current + s.buffered + [frame];
      } else {
        assert r.Frames() == Flatten(s.closed) + (s.current + s.buffered) + [frame];
      }
    } else {
      assert r.Frames() == Flatten(s.closed) + s.current + (s.buffered + [frame]);
    }
  }

  // After every run from the start, whatever the frames of at most 1 MiB: closed files, open file and
  // buffer hold all frames received, whole and in order, and the bounds hold.
  lemma {:induction false} RecorderInvariant(fileSize: nat, frames: seq<Message>)
    requires forall f :: f in frames ==> |f| <= MEGABYTE
    ensures var s := RecordAll(Recording([], [], []), fileSize, frames);
            && s.Frames() == Flatten(s.closed) + s.current + s.buffered == frames
            && Bounded(s, fileSize)
            && |Bytes(s.buffered)| <= 1048576
            && |Bytes(s.current)| <= (if fileSize > 1048576 then fileSize else 1048576)
            && forall f :: f in s.closed ==>
                             fileSize - 1048576 < |Bytes(f)| <= if fileSize > 1048576 then fileSize else 1048576
  {
    hide Bytes;
    hide Record;
    BytesOfNone();
    if frames == [] {
    } else {
      assert forall f :: f in Init(frames) ==> f in frames;
      RecorderInvariant(fileSize, Init(frames));
      var before := RecordAll(Recording([], [], []), fileSize, Init(frames));
      RecordKeepsBounds(before, fileSize, Last(frames));
      RecordConserves(before, fileSize, Last(frames));
    }
  }

  // ---------- how the frames are laid out ----------

  // Loads of the buffer, the last of them still in it: none is larger than the buffer, and the first
  // frame of the next would have made it so.
  predicate LoadsLaid(loads: seq<seq<Message>>) {
    && (forall i :: 0 <= i < |loads| ==> |Bytes(loads[i])| <= 1048576)
    && (forall i :: 0 < i < |loads| ==> loads[i] != [] && |Bytes(loads[i - 1])| + |loads[i][0]| > 1048576)
  }

  // Files made of loads: a file was closed only because the first load of the next did not fit in it, and
  // every other load did fit.
  predicate FilesLaid(written: seq<seq<Message>>, fileSize: nat, files: seq<seq<seq<Message>>>) {
    && |written| == |files| > 0
    && (forall k :: 0 <= k < |files| ==> written[k] == Flatten(files[k]))
    && (forall k :: 0 < k < |files| ==>
                      files[k] != [] && |Bytes(written[k - 1])| + |Bytes(files[k][0])| > fileSize)
    && (forall k, j :: 0 <= k < |files| && (if k == 0 then 0 else 1) <= j < |files[k]| ==>
                         |Bytes(Flatten(files[k][..j]))| + |Bytes(files[k][j])| <= fileSize)
  }

  lemma NothingLaid(fileSize: nat)
    ensures LoadsLaid(Flatten([[]]) + [[]]) && FilesLaid([[]], fileSize, [[]])
  {
    BytesOfNone();
    assert Flatten<seq<Message>>([[]]) == [];
    assert Flatten<Message>([]) == [];
  }

  lemma LoadGrows(loads: seq<seq<Message>>, buffered: seq<Message>, frame: Message)
    requires LoadsLaid(loads + [buffered]) && |Bytes(buffered + [frame])| <= 1048576
    ensures LoadsLaid(loads + [buffered + [frame]])
  {
    hide Bytes;
    var before, next := loads + [buffered], loads + [buffered + [frame]];
    assert forall i :: 0 <= i < |loads| ==> next[i] == before[i] == loads[i];
    assert next[|loads|] == buffered + [frame] && before[|loads|] == buffered;
  }

  lemma LoadIsDumped(loads: seq<seq<Message>>, buffered: seq<Message>, frame: Message)
    requires LoadsLaid(loads + [buffered]) && |frame| <= 1048576 && |Bytes(buffered + [frame])| > 1048576
    ensures LoadsLaid(loads + [buffered] + [[frame]])
  {
    hide Bytes;
    BytesOfNone();
    BytesAppend([], frame);
    BytesAppend(buffered, frame);
    var before, next := loads + [buffered], loads + [buffered] + [[frame]];
    assert [] + [frame] == [frame];
    assert forall i :: 0 <= i < |before| ==> next[i] == before[i];
    assert next[|before|] == [frame] && before[|loads|] == buffered;
  }

  lemma LoadIsAppended(written: seq<seq<Message>>, current: seq<Message>, fileSize: nat,
                       files: seq<seq<seq<Message>>>, last: seq<seq<Message>>, load: seq<Message>)
    requires FilesLaid(written + [current], fileSize, files + [last])
    requires |Bytes(current)| + |Bytes(load)| <= fileSize
    ensures FilesLaid(written + [current + load], fileSize, files + [last + [load]])
  {
    hide Bytes;
    hide Flatten;
    FlattenAppend(last, load);
    var n := |files|;
    var w, f := written + [current], files + [last];
    var w2, f2 := written + [current + load], files + [last + [load]];
    assert w[n] == current && f[n] == last && w2[n] == current + load && f2[n] == last + [load];
    assert forall k :: 0 <= k < n ==> w2[k] == w[k] && f2[k] == f[k];
    assert (last + [load])[..|last|] == last;
    assert forall j :: 0 <= j < |last| ==> (last + [load])[..j] == last[..j] && (last + [load])[j] == last[j];
  }

  lemma LoadStartsFile(written: seq<seq<Message>>, fileSize: nat, files: seq<seq<seq<Message>>>, load: seq<Message>)
    requires FilesLaid(written, fileSize, files) && |Bytes(Last(written))| + |Bytes(load)| > fileSize
    ensures FilesLaid(written + [load], fileSize, files + [[load]])
  {
    hide Bytes;
    hide Flatten;
    FlattenOne(load);
    var n := |files|;
    var w2, f2 := written + [load], files + [[load]];
    assert w2[n] == load && f2[n] == [load] && w2[n - 1] == Last(written);
    assert forall k :: 0 <= k < n ==> w2[k] == written[k] && f2[k] == files[k];
  }

  lemma FlattenOne(load: seq<Message>)
    ensures Flatten([load]) == load
  {
    FlatMapOne((part: seq<Message>) => part, load);
  }

  // After every run of frames of at most 1 MiB the files are made of whole loads of the buffer, and what
  // is in the buffer is the next load. A load ended only because the next frame did not fit in the buffer;
  // a file was closed only because the next load did not fit in it; and nothing was put where it did not
  // fit, but for the first load of a new file.
  lemma {:induction false} RecordingLayout(fileSize: nat, frames: seq<Message>) returns (files: seq<seq<seq<Message>>>)
    requires forall f :: f in frames ==> |f| <= 1048576
    ensures var s := RecordAll(Recording([], [], []), fileSize, frames);
            var loads := Flatten(files) + [s.buffered];
            && |files| == |s.closed| + 1
            && (forall k :: 0 <= k < |s.closed| ==> s.closed[k] == Flatten(files[k]))
            && s.current == Flatten(files[|s.closed|])
            && (forall i :: 0 <= i < |loads| ==> |Bytes(loads[i])| <= 1048576)
            && (forall i :: 0 < i < |loads| ==> loads[i] != [] && |Bytes(loads[i - 1])| + |loads[i][0]| > 1048576)
            && (forall k :: 0 < k < |files| ==>
                              files[k] != [] && |Bytes(s.closed[k - 1])| + |Bytes(files[k][0])| > fileSize)
            && (forall k, j :: 0 <= k < |files| && (if k == 0 then 0 else 1) <= j < |files[k]| ==>
                                 |Bytes(Flatten(files[k][..j]))| + |Bytes(files[k][j])| <= fileSize)
  {
    hide RecordAll;
    hide LoadsLaid;
    hide FilesLaid;
    files := LayoutOf(fileSize, frames);
    LayoutMeans(RecordAll(Recording([], [], []), fileSize, frames), fileSize, files);
  }

  lemma LayoutMeans(s: Recording, fileSize: nat, files: seq<seq<seq<Message>>>)
    requires FilesLaid(s.closed + [s.current], fileSize, files) && LoadsLaid(Flatten(files) + [s.buffered])
    ensures var loads := Flatten(files) + [s.buffered];
            && |files| == |s.closed| + 1
            && (forall k :: 0 <= k < |s.closed| ==> s.closed[k] == Flatten(files[k]))
            && s.current == Flatten(files[|s.closed|])
            && (forall i :: 0 <= i < |loads| ==> |Bytes(loads[i])| <= 1048576)
            && (forall i :: 0 < i < |loads| ==> loads[i] != [] && |Bytes(loads[i - 1])| + |loads[i][0]| > 1048576)
            && (forall k :: 0 < k < |files| ==>
                              files[k] != [] && |Bytes(s.closed[k - 1])| + |Bytes(files[k][0])| > fileSize)
            && (forall k, j :: 0 <= k < |files| && (if k == 0 then 0 else 1) <= j < |files[k]| ==>
                                 |Bytes(Flatten(files[k][..j]))| + |Bytes(files[k][j])| <= fileSize)
  {
    hide Bytes;
    hide Flatten;
    var written := s.closed + [s.current];
    assert written[|s.closed|] == s.current;
    assert forall k :: 0 <= k < |s.closed| ==> written[k] == s.closed[k];
  }

  lemma {:induction false} LayoutOf(fileSize: nat, frames: seq<Message>) returns (files: seq<seq<seq<Message>>>)
    requires forall f :: f in frames ==> |f| <= 1048576
    ensures var s := RecordAll(Recording([], [], []), fileSize, frames);
            FilesLaid(s.closed + [s.current], fileSize, files) && LoadsLaid(Flatten(files) + [s.buffered])
  {
    hide Bytes;
    hide Record;
    hide FilesLaid;
    hide LoadsLaid;
    hide Flatten;
    if frames == [] {
      files := [[]];
      NothingLaid(fileSize);
      var start := Recording([], [], []);
      assert start.closed + [start.current] == [[]];
    } else {
      assert forall f :: f in Init(frames) ==> f in frames;
      var before := RecordAll(Recording([], [], []), fileSize, Init(frames));
      var laid := LayoutOf(fileSize, Init(frames));
      files := LayoutNext(before, fileSize, laid, Last(frames));
    }
  }

  lemma LayoutNext(s: Recording, fileSize: nat, laid: seq<seq<seq<Message>>>, frame: Message)
    returns (files: seq<seq<seq<Message>>>)
    requires FilesLaid(s.closed + [s.current], fileSize, laid) && LoadsLaid(Flatten(laid) + [s.buffered])
    requires |frame| <= 1048576
    ensures var next := Record(s, fileSize, frame);
            FilesLaid(next.closed + [next.current], fileSize, files) && LoadsLaid(Flatten(files) + [next.buffered])
  {
    hide Bytes;
    hide Record;
    hide LoadsLaid;
    hide Flatten;
    RecordDumpsIffNoRoom(s, fileSize, frame);
    if |Bytes(s.buffered + [frame])| > 1048576 {
      var init, last := Init(laid), Last(laid);
      assert laid == init + [last];
      LoadIsDumped(Flatten(laid), s.buffered, frame);
      if |Bytes(s.current)| + |Bytes(s.buffered)| > fileSize {
        files := laid + [[s.buffered]];
        assert Last(s.closed + [s.current]) == s.current;
        LoadStartsFile(s.closed + [s.current], fileSize, laid, s.buffered);
        FlattenAppend(laid, [s.buffered]);
      } else {
        files := init + [last + [s.buffered]];
        LoadIsAppended(s.closed, s.current, fileSize, init, last, s.buffered);
        FlattenAppend(init, last);
        FlattenAppend(init, last + [s.buffered]);
        ConcatAssociates(Flatten(init), last, [s.buffered]);
      }
    } else {
      files := laid;
      LoadGrows(Flatten(laid), s.buffered, frame);
    }
  }

  // The bytes in all files, one after the other.
  lemma {:induction false} FilesBytes(files: seq<seq<u8>>, closed: seq<seq<Message>>)
    requires |files| == |closed| && forall k :: 0 <= k < |files| ==> files[k] == Bytes(closed[k])
    ensures Flatten(files) == Bytes(Flatten(closed))
  {
    hide Bytes;
    hide Flatten;
    NoFiles();
    if files == [] {
    } else {
      FilesBytes(Init(files), Init(closed));
      assert files == Init(files) + [Last(files)] && closed == Init(closed) + [Last(closed)];
      FlattenAppend(Init(files), Last(files));
      FlattenAppend(Init(closed), Last(closed));
      BytesConcat(Flatten(Init(closed)), Last(closed));
    }
  }

  lemma NoFiles()
    ensures Flatten<u8>([]) == [] && Bytes(Flatten([])) == []
  {
  }

  // ---------- the main loop ----------

  // filesize * 1024 * 1024 as an int, stored in an uint64_t.
  function FileSizeLimit(filesize: int): nat
    requires -2048 <= filesize <= 2047
  {
    if filesize >= 0 then filesize * MEGABYTE else 0x1_0000_0000_0000_0000 + filesize * MEGABYTE
  }

  class ZmqReceiver {
    const buffer: array<u8>
    var bufferUsed: nat
    var framesInBuffer: nat
    var closedFiles: seq<seq<u8>>
    var outputFile: seq<u8>
    var fileIndex: nat
    var fileUsed: nat
    const fileSize: nat
    ghost var recorded: Recording

    // The bytes are those of the recorded frames, file by file.
    ghost predicate Valid()
      reads this, buffer
    {
      && buffer.Length == MEGABYTE
      && Bounded(recorded, fileSize)
      && bufferUsed == |Bytes(recorded.buffered)| && buffer[..bufferUsed] == Bytes(recorded.buffered)
      && framesInBuffer == |recorded.buffered|
      && outputFile == Bytes(recorded.current) && fileUsed == |outputFile|
      && fileIndex == |closedFiles| == |recorded.closed|
      && forall k :: 0 <= k < |closedFiles| ==> closedFiles[k] == Bytes(recorded.closed[k])
    }

    // The closed files, the open file and the used part of the buffer, end to end.
    ghost function AllBytes(): seq<u8>
      requires Valid()
      reads this, buffer
    {
      Flatten(closedFiles) + outputFile + buffer[..bufferUsed]
    }

    // These frames, and no others, have been recorded since the start.
    ghost predicate HasRecorded(frames: seq<Message>)
      reads this, buffer
    {
      Valid() && recorded == RecordAll(Recording([], [], []), fileSize, frames)
    }

    lemma AllBytesAreRecorded()
      requires Valid()
      ensures AllBytes() == Bytes(recorded.Frames())
    {
      hide Bytes;
      FilesBytes(closedFiles, recorded.closed);
      BytesConcat(Flatten(recorded.closed), recorded.current);
      BytesConcat(Flatten(recorded.closed) + recorded.current, recorded.buffered);
    }

    // The product must not overflow an int.
    constructor (filesize: int)
      requires -2048 <= filesize <= 2047
      ensures Valid() && fresh(buffer) && fileSize == FileSizeLimit(filesize)
      ensures recorded == Recording([], [], [])
      ensures filesize >= 0 ==> fileSize == filesize * 1048576
      ensures filesize < 0 ==> fileSize == 0x1_0000_0000_0000_0000 + filesize * 1048576
      ensures closedFiles == [] && outputFile == [] && bufferUsed == 0
    {
      buffer := new u8[MEGABYTE](_ => 0);
      bufferUsed, framesInBuffer, fileIndex, fileUsed := 0, 0, 0, 0;
      closedFiles, outputFile := [], [];
      fileSize := FileSizeLimit(filesize);
      recorded := Recording([], [], []);
      new;
      BytesOfNone();
    }

    // Writes the buffer to the file, or to a new one if it would not fit.
    method DumpBuffer()
      requires Valid()
      modifies this
      ensures Valid() && recorded == Dump(old(recorded), fileSize)
      ensures var full := |old(outputFile)| + old(bufferUsed) > fileSize;
              && closedFiles == (if full then old(closedFiles) + [old(outputFile)] else old(closedFiles))
              && outputFile == (if full then [] else old(outputFile)) + old(buffer[..bufferUsed])
              && bufferUsed == 0
    {
      hide Bytes;
      BytesConcat(recorded.current, recorded.buffered);
      BytesOfNone();
      if fileUsed + bufferUsed > fileSize {
        closedFiles := closedFiles + [outputFile];
        fileIndex := fileIndex + 1;
        fileUsed := 0;
        outputFile := [];
      }
      outputFile := outputFile + buffer[..bufferUsed];
      fileUsed := fileUsed + bufferUsed;
      bufferUsed := 0;
      framesInBuffer := 0;
      recorded := Dump(recorded, fileSize);
    }

    method CopyFrame(event: Message)
      requires bufferUsed + |event| <= buffer.Length
      modifies buffer
      ensures buffer[..bufferUsed + |event|] == old(buffer[..bufferUsed]) + event
    {
      forall i | 0 <= i < |event| {
        buffer[bufferUsed + i] := event[i];
      }
      assert buffer[..bufferUsed] == old(buffer[..bufferUsed]);
      assert buffer[bufferUsed..bufferUsed + |event|] == event;
      assert buffer[..bufferUsed + |event|] == buffer[..bufferUsed] + buffer[bufferUsed..bufferUsed + |event|];
    }

    // One message. If it is not a frame the program ends there; a frame larger than the buffer would
    // overrun it.
    method ProcessMessage(event: Message) returns (decod: Decoded)
      requires Valid() && (DecodeHeader(event).MfmHeader? ==> |event| <= MEGABYTE)
      modifies this, buffer
      ensures Valid() && decod == DecodeHeader(event)
      ensures recorded == if decod.MfmHeader? then Record(old(recorded), fileSize, event) else old(recorded)
      ensures !decod.MfmHeader? ==> unchanged(this) && unchanged(buffer)
      ensures decod.MfmHeader? ==>
                var dumped := old(bufferUsed) + |event| > 1048576;
                var full := |old(outputFile)| + old(bufferUsed) > fileSize;
                && buffer[..bufferUsed] == (if dumped then [] else old(buffer[..bufferUsed])) + event
                && closedFiles == (if dumped && full then old(closedFiles) + [old(outputFile)] else old(closedFiles))
                && outputFile == if !dumped then old(outputFile)
                                 else (if full then [] else old(outputFile)) + old(buffer[..bufferUsed])
    {
      hide Bytes;
      hide FrameSizeOf;
      hide Dump;
      decod := DecodeHeader(event);
      if !decod.MfmHeader? { return; }
      RecordKeepsBounds(recorded, fileSize, event);
      BytesOfNone();
      if bufferUsed + decod.frameSize > MEGABYTE {
        DumpBuffer();
        DumpEmpties(old(recorded), fileSize);
      }
      BytesAppend(recorded.buffered, event);
      CopyFrame(event);
      bufferUsed := bufferUsed + decod.frameSize;
      framesInBuffer := framesInBuffer + 1;
      recorded := recorded.(buffered := recorded.buffered + [event]);
    }

    // The main loop over what successive receive calls give, up to the first message that is no frame.
    method Run(incoming: Incoming) returns (read: nat)
      requires Valid()
      requires forall m :: m in Arrived(incoming) && DecodeHeader(m).MfmHeader? ==> |m| <= MEGABYTE
      modifies this, buffer
      ensures Valid() && read <= |incoming|
      ensures recorded == RecordAll(old(recorded), fileSize, Arrived(incoming[..read]))
      ensures forall m :: m in Arrived(incoming[..read]) ==> DecodeHeader(m).MfmHeader?
      ensures read < |incoming| ==> incoming[read].Some? && !DecodeHeader(incoming[read].value).MfmHeader?
    {
      hide Bytes;
      hide Arrived;
      hide DecodeHeader;
      hide Record;
      read := 0;
      NothingArrived();
      while read < |incoming|
        invariant 0 <= read <= |incoming| && Valid()
        invariant recorded == RecordAll(old(recorded), fileSize, Arrived(incoming[..read]))
        invariant forall m :: m in Arrived(incoming[..read]) ==> DecodeHeader(m).MfmHeader?
      {
        ArrivedNext(incoming, read);
        if incoming[read].Some? {
          var decod := ProcessMessage(incoming[read].value);
          if !decod.MfmHeader? { return; }
        }
        read := read + 1;
      }
    }
  }

  lemma DumpEmpties(s: Recording, fileSize: nat)
    ensures Dump(s, fileSize).buffered == []
  {
  }
}
