/** Updates as bytes: a full update makes the client's copy equal to the server's, a delta
    reaches the client as the change that was made. */
module Wire {
  import opened Bits
  import opened PackedArray
  import opened ControlPlane
  import opened VacuumFilters
  import opened Verifiers
  import opened Codec
  import FM = FilterModel
  import FE = FilterEntries
  import SS = SemiSort
  import SG = Segments

  /** Fields that a full update carries along and nobody reads: the digest seed (there are no
      digest bits), and the segment data of large filters. */
  datatype Extras = Extras(hd: uint32, bigSeg: uint32, len: (uint32, uint32, uint32, uint32))

  const FULL: uint8 := 70

  function ImageOf(v: DassVerifier, x: Extras): Image
    reads v.vf, v.othello
  {
    Image(v.othello.mem, v.othello.ma, v.othello.mb, v.othello.seed, x.hd,
          v.vf.memoryConsumption, v.vf.e, v.vf.n, SLOTS, v.vf.filledCell, v.vf.maxKickSteps, v.vf.max2Power,
          x.bigSeg, true, [x.len.0, x.len.1, x.len.2, x.len.3], v.vf.fpLen, UnitsOf(v.vf.t, v.vf.memoryConsumption / 4))
  }

  lemma UnitsBelow(t: seq<nat>, count: nat)
    requires Words(t)
    ensures FitsIn(UnitsOf(t, count), WRAP32)
  {
  }

  lemma FilterBounds(f: FM.Filter)
    requires f.Ok()
    ensures f.n < 1315800 && f.fpLen <= 16 && f.max2Power < f.n && Words(f.t) && SS.Tables(f.encode, f.decode)
  {
    hide Words, SS.Tables, SS.SortedBucket, SS.GetBucket;
  }

  lemma EngineText(e: uint64)
    ensures |Decimal(e)| <= 20
  {
    assert Pow10(5) == 100_000 && Pow10(10) == 10_000_000_000;
    assert Pow10(15) == 1_000_000_000_000_000;
    assert Pow10(20) == 100_000_000_000_000_000_000;
    ShortText(e, 20);
  }

  /** Everything a full update carries fits its C++ type: the sizes of a filter bound its
      fields, and the counter of occupied cells is what its name says. */
  lemma ImageEncodable(v: DassVerifier, x: Extras)
    requires v.vf.Ok() && v.vf.Sized() && FE.CellsCounted(v.vf.View()) && v.othello.Shape()
    ensures Encodable(ImageOf(v, x))
  {
    hide FM.Filter.Ok, Decimal, UnitsOf, Consumption, FE.CellsUpTo;
    FilterBounds(v.vf.View());
    UnitsBelow(v.vf.t, v.vf.memoryConsumption / 4);
    ConsumptionBounded(v.vf.n, v.vf.fpLen);
    FE.CellsBounded(v.vf.View(), v.vf.n);
    EngineText(v.vf.e);
  }

  /** The end of `decode_full`: the decoded fields replace the client's. */
  method Load(client: DassVerifier, g: Image)
    requires |g.t| == g.memoryConsumption / 4 && g.hab < TWO64 && g.e < TWO64
    modifies client.vf, client.othello
    ensures client.othello.mem == g.mem && client.othello.ma == g.ma && client.othello.mb == g.mb
        && client.othello.seed == g.hab
    ensures client.vf.View() == FM.Filter(g.n, g.fpLen, g.maxKickSteps, g.max2Power, client.vf.encode, client.vf.decode,
                                          WordsOf(g.t, g.memoryConsumption / 8), g.e, g.filledCell)
    ensures SS.Tables(client.vf.encode, client.vf.decode)
  {
    hide SS.Tables;
    client.othello.mem, client.othello.ma, client.othello.mb, client.othello.seed := g.mem, g.ma, g.mb, g.hab;
    client.vf.InitWithParams(g.memoryConsumption, g.e, g.n, g.filledCell, g.maxKickSteps, g.max2Power, g.fpLen, g.t);
  }

  /** The bytes of a full update: 'F' and the encoded chunks. */
  method UpdateBytes(server: DassVerifier, x: Extras) returns (data: Bytes)
    requires server.vf.Ok() && server.vf.Sized() && FE.CellsCounted(server.vf.View()) && server.othello.Shape()
    ensures |data| > 0 && data[0] == 70 && Laid(data, 1, ImageOf(server, x))
    ensures var g := ImageOf(server, x);
            && g.mem == server.othello.mem && g.ma == server.othello.ma && g.mb == server.othello.mb
            && g.hab == server.othello.seed && g.memoryConsumption == server.vf.memoryConsumption
            && g.e == server.vf.e && g.n == server.vf.n && g.m == 4 && g.filledCell == server.vf.filledCell
            && g.maxKickSteps == server.vf.maxKickSteps && g.max2Power == server.vf.max2Power && g.isSmall
            && g.fpLen == server.vf.fpLen && |g.t| == server.vf.memoryConsumption / 4
  {
    hide FM.Filter.Ok, Encodable, Joined, Parts, Words, Decimal, Laid;
    ImageEncodable(server, x);
    ghost var g := ImageOf(server, x);
    var chunks := EncodeFull(ImageOf(server, x));
    data := [FULL] + Joined(chunks, 0);
    assert data[1..] == Joined(Parts(g), 0) + [];
    PartsLaid(data, 1, g, []);
  }

  /** A full update, and whatever else is in the buffer. */
  method FullUpdate(server: DassVerifier, client: DassVerifier, x: Extras, tail: Bytes)
    requires server.vf.Ok() && server.vf.Sized() && FE.CellsCounted(server.vf.View()) && server.othello.Shape()
    requires server.vf != client.vf && server.othello != client.othello
    modifies client.vf, client.othello
    ensures client.Held() == server.Held()
  {
    hide FM.Filter.Ok, Encodable, Words, SS.Tables, UnitsOf, WordsOf, Decimal, OthelloLaid, EngineLaid, FilterLaid;
    ghost var f, g := server.vf.View(), ImageOf(server, x);
    FilterBounds(f);
    var data := UpdateBytes(server, x);
    LaidBefore(data, 1, g, tail);
    LaidSizes(data, 1, g);
    var r := DecodeFull(data + tail, g);
    Load(client, r.value);
    UnitsRoundTrip(server.vf.t, server.vf.memoryConsumption / 4);
    SS.TablesUnique(f.encode, f.decode, client.vf.encode, client.vf.decode);
  }

  lemma LaidSizes(data: Bytes, o: nat, g: Image)
    requires Laid(data, o, g)
    ensures |g.t| == g.memoryConsumption / 4 && g.hab < TWO64
  {
  }
}
