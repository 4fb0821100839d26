/**
 Whole runs of the bit buffer (util.c:60-111) and of read_bit (postings.c:89-105): any mixture of single bits
 and byte chunks is read back bit for bit, with zeros only where a chunk had to start at a byte boundary.
 */
module BitReplay {
  import opened BitBuffer

  datatype Write = Bit(b: bool) | Chunk(bytes: seq<bv8>)

  /** The bits after a run of writes. */
  function Written(ws: seq<Write>): (s: seq<bool>)
  {
    if ws == [] then []
    else
      var before := Written(ws[..|ws| - 1]);
      match ws[|ws| - 1]
      case Bit(b) => before + [b]
      case Chunk(bytes) => Pad(before) + BytesBits(bytes)
  }

  /** The capacity after a run of writes: it doubles when a bit finds it full, or a chunk does not fit. */
  function Capacity(ws: seq<Write>): (n: nat)
    ensures n >= BUFFER_INIT_MIN
  {
    if ws == [] then BUFFER_INIT_MIN
    else
      var before, n := Written(ws[..|ws| - 1]), Capacity(ws[..|ws| - 1]);
      match ws[|ws| - 1]
      case Bit(_) => if |before| == 8 * n then 2 * n else n
      case Chunk(bytes) => if Bytes(before) + |bytes| > n then 2 * n else n
  }

  /** Bytes that hold the bits. */
  function Bytes(s: seq<bool>): (n: nat)
    ensures 8 * n == |Pad(s)|
  {
    |Pad(s)| / 8
  }

  /** Every chunk fits when the buffer is enlarged at most once for it. */
  predicate Fitting(ws: seq<Write>)
  {
    forall i :: 0 <= i < |ws| && ws[i].Chunk? ==> Bytes(Written(ws[..i])) + |ws[i].bytes| <= 2 * Capacity(ws[..i])
  }

  /** Where write `i` of a run starts, and what it writes. */
  function StartOf(ws: seq<Write>, i: nat): (c: nat)
    requires i < |ws|
  {
    var n := |Written(ws[..i])|;
    if ws[i].Bit? then n else n + Slack(n)
  }

  function BitsOf(w: Write): (s: seq<bool>)
  {
    if w.Bit? then [w.b] else BytesBits(w.bytes)
  }

  lemma WrittenStep(ws: seq<Write>, i: nat)
    requires i < |ws|
    ensures Written(ws[..i + 1]) ==
      if ws[i].Bit? then Written(ws[..i]) + [ws[i].b] else Pad(Written(ws[..i])) + BytesBits(ws[i].bytes)
  {
    hide Pad, BytesBits;
    var now := ws[..i + 1];
    assert now[..|now| - 1] == ws[..i] && now[|now| - 1] == ws[i];
  }

  /** Later writes, realignments and enlargements leave earlier bits as they are. */
  lemma {:induction false} WrittenKept(ws: seq<Write>, i: nat, j: nat)
    requires i <= j <= |ws|
    ensures Written(ws[..i]) <= Written(ws[..j])
    decreases j
  {
    hide Written, BytesBits;
    if i < j {
      WrittenKept(ws, i, j - 1);
      WrittenStep(ws, j - 1);
      assert Written(ws[..j - 1]) <= Written(ws[..j]);
    }
  }

  /** Every write of a run can be found at its place, chunks at a byte boundary. */
  lemma WriteInPlace(ws: seq<Write>, i: nat)
    requires i < |ws|
    ensures var c, s := StartOf(ws, i), BitsOf(ws[i]);
            && c + |s| <= |Written(ws)| && Written(ws)[c..c + |s|] == s
            && (ws[i].Chunk? ==> c % 8 == 0)
  {
    hide BytesBits, Written;
    WrittenStep(ws, i);
    WrittenKept(ws, i + 1, |ws|);
    assert ws[..|ws|] == ws;
    var now := Written(ws[..i + 1]);
    var c, s := StartOf(ws, i), BitsOf(ws[i]);
    assert |now| == c + |s| && now[c..] == s;
    assert Written(ws)[..|now|] == now;
  }

  /**
   A run of writes on a fresh buffer, the closing `append_buffer(buf, NULL, 0)`, and read_bit until it says -1.
   */
  method WriteThenRead(ws: seq<Write>) returns (bits: seq<bool>)
    requires Fitting(ws)
    ensures bits == Pad(Written(ws))
  {
    hide Pad, BytesBits, Written, Capacity;
    var buf := new Buffer();
    assert Written(ws[..0]) == [] && Capacity(ws[..0]) == BUFFER_INIT_MIN by {
      WrittenNothing();
    }
    var i := 0;
    while i < |ws|
      invariant 0 <= i <= |ws| && buf.Valid() && fresh(buf) && fresh(buf.data)
      invariant buf.Bits() == Written(ws[..i]) && buf.data.Length == Capacity(ws[..i])
    {
      WrittenStep(ws, i);
      CapacityStep(ws, i);
      UsedBytes(buf);
      match ws[i] {
        case Bit(b) => buf.AppendBit(b);
        case Chunk(bytes) => buf.Append(bytes);
      }
      i := i + 1;
    }
    assert ws[..i] == ws;
    buf.Append([]);
    NoBits();
    assert buf.Bits() == Pad(Written(ws));
    var data := buf.Contents();
    bits := ReadAll(data);
  }

  lemma CapacityStep(ws: seq<Write>, i: nat)
    requires i < |ws|
    ensures var before, n := Written(ws[..i]), Capacity(ws[..i]);
            Capacity(ws[..i + 1]) ==
              match ws[i]
              case Bit(_) => if |before| == 8 * n then 2 * n else n
              case Chunk(bytes) => if Bytes(before) + |bytes| > n then 2 * n else n
  {
    hide Written, Bytes;
    var now := ws[..i + 1];
    assert now[..|now| - 1] == ws[..i] && now[|now| - 1] == ws[i];
  }

  /** The used bytes of a buffer are those of its bits. */
  lemma UsedBytes(buf: Buffer)
    requires buf.Valid()
    ensures Bytes(buf.Bits()) == buf.Used() && (|buf.Bits()| == 8 * buf.data.Length <==> buf.curr == buf.data.Length)
  {
  }

  lemma WrittenNothing()
    ensures Written([]) == [] && Capacity([]) == BUFFER_INIT_MIN
  {
  }

  lemma NoBits()
    ensures forall s: seq<bool> :: s + BytesBits([]) == s
  {
    assert |BytesBits([])| == 0;
  }

  /** read_bit until the end of the data. */
  method ReadAll(data: seq<bv8>) returns (bits: seq<bool>)
    ensures bits == BytesBits(data)
  {
    hide BytesBits;
    var reader := new BitReader(data);
    bits := [];
    var r := reader.ReadBit();
    while r != -1
      invariant reader.Valid() && fresh(reader) && reader.bits == BytesBits(data)
      invariant if r == -1 then bits == reader.bits
                else reader.cursor > 0 && bits == reader.bits[..reader.cursor - 1]
                      && r == (if reader.bits[reader.cursor - 1] then 1 else 0)
      decreases |reader.bits| - |bits|
    {
      bits := bits + [r == 1];
      assert bits == reader.bits[..reader.cursor];
      r := reader.ReadBit();
    }
  }
}
