/** The light manager of `src/engine/light.rs`: it collects directional and
    point lights and packs them into the storage buffer the fragment shader
    reads, refreshing the descriptor sets when the buffer is replaced. */
module Lights {
  import opened Common
  import opened Buffer
  import F32Cast

  datatype DirectionalLight = DirectionalLight(direction: Vec3, illuminance: Vec3)

  datatype PointLight = PointLight(position: Vec3, luminousFlux: Vec3)

  /** Either kind of light, as `add_light` accepts it. */
  datatype Light = Directional(directional: DirectionalLight) | Point(point: PointLight)

  /** The header holds the two counts and two padding floats. */
  const HEADER_SIZE: nat := 4
  /** Each light is two `vec4`s: a vector padded with `0.0`, then a colour
      padded with `0.0`. */
  const RECORD_SIZE: nat := 8
  /** Bytes per `f32`. */
  const F32_BYTES: nat := 4

  function Record(v: Vec3, c: Vec3): (r: seq<F32>)
  {
    [v.x, v.y, v.z, F32_ZERO, c.x, c.y, c.z, F32_ZERO]
  }

  function DirectionalRecord(l: DirectionalLight): (r: seq<F32>)
  {
    Record(l.direction, l.illuminance)
  }

  function PointRecord(l: PointLight): (r: seq<F32>)
  {
    Record(l.position, l.luminousFlux)
  }

  /** The records of a list of lights, one after another. */
  function Records<L>(ls: seq<L>, rec: L -> seq<F32>): (r: seq<F32>)
  {
    if ls == [] then [] else Records(ls[..|ls| - 1], rec) + rec(ls[|ls| - 1])
  }

  function Header(directionalCount: nat, pointCount: nat): (r: seq<F32>)
  {
    [F32Cast.CountAsF32(directionalCount), F32Cast.CountAsF32(pointCount), F32_ZERO, F32_ZERO]
  }

  /** The `Vec<f32>` that `update_buffer` builds. */
  function Packed(directional: seq<DirectionalLight>, point: seq<PointLight>): (r: seq<F32>)
  {
    Header(|directional|, |point|) + Records(directional, DirectionalRecord) + Records(point, PointRecord)
  }

  function PackedSize(directionalCount: nat, pointCount: nat): (r: nat)
  {
    HEADER_SIZE + RECORD_SIZE * (directionalCount + pointCount)
  }

  /** Each light contributes one record to the packed data. */
  lemma {:induction false} RecordsLength<L>(ls: seq<L>, rec: L -> seq<F32>)
    requires forall l :: |rec(l)| == RECORD_SIZE
    ensures |Records(ls, rec)| == RECORD_SIZE * |ls|
  {
    if ls != [] {
      RecordsLength(ls[..|ls| - 1], rec);
    }
  }

  /** The records of `ls` sit at every `RECORD_SIZE`-th position, in order. */
  lemma {:induction false} RecordsLayout<L>(ls: seq<L>, rec: L -> seq<F32>)
    requires forall l :: |rec(l)| == RECORD_SIZE
    ensures |Records(ls, rec)| == RECORD_SIZE * |ls|
    ensures forall k | 0 <= k < |ls| ::
              Records(ls, rec)[RECORD_SIZE * k..RECORD_SIZE * k + RECORD_SIZE] == rec(ls[k])
  {
    if ls != [] {
      var init := ls[..|ls| - 1];
      RecordsLayout(init, rec);
      var front := Records(init, rec);
      var r := Records(ls, rec);
      assert r == front + rec(ls[|ls| - 1]);
      forall k | 0 <= k < |ls|
        ensures r[RECORD_SIZE * k..RECORD_SIZE * k + RECORD_SIZE] == rec(ls[k])
      {
        if k < |init| {
          assert r[RECORD_SIZE * k..RECORD_SIZE * k + RECORD_SIZE]
              == front[RECORD_SIZE * k..RECORD_SIZE * k + RECORD_SIZE];
          assert init[k] == ls[k];
        } else {
          assert r[RECORD_SIZE * k..RECORD_SIZE * k + RECORD_SIZE] == rec(ls[|ls| - 1]);
        }
      }
    }
  }

  /** The packed buffer's length and header: both counts, then two zeros. */
  lemma PackedHeader(directional: seq<DirectionalLight>, point: seq<PointLight>)
    ensures var data := Packed(directional, point);
            && |data| == PackedSize(|directional|, |point|)
            && data[0] == F32Cast.CountAsF32(|directional|)
            && data[1] == F32Cast.CountAsF32(|point|)
            && data[2] == F32_ZERO && data[3] == F32_ZERO
  {
    RecordsLength(directional, DirectionalRecord);
    RecordsLength(point, PointRecord);
    var data := Packed(directional, point);
    assert data[..HEADER_SIZE] == Header(|directional|, |point|);
  }

  /** The directional records start right after the header. */
  lemma PackedDirectional(directional: seq<DirectionalLight>, point: seq<PointLight>)
    ensures var data := Packed(directional, point);
            forall k | 0 <= k < |directional| ::
              && HEADER_SIZE + RECORD_SIZE * k + RECORD_SIZE <= |data|
              && data[HEADER_SIZE + RECORD_SIZE * k..HEADER_SIZE + RECORD_SIZE * k + RECORD_SIZE]
                   == DirectionalRecord(directional[k])
  {
    RecordsLayout(directional, DirectionalRecord);
    RecordsLayout(point, PointRecord);
    var ds := Records(directional, DirectionalRecord);
    var data := Packed(directional, point);
    assert data == Header(|directional|, |point|) + ds + Records(point, PointRecord);
    forall k | 0 <= k < |directional|
      ensures data[HEADER_SIZE + RECORD_SIZE * k..HEADER_SIZE + RECORD_SIZE * k + RECORD_SIZE]
                == DirectionalRecord(directional[k])
    {
      assert data[HEADER_SIZE + RECORD_SIZE * k..HEADER_SIZE + RECORD_SIZE * k + RECORD_SIZE]
          == ds[RECORD_SIZE * k..RECORD_SIZE * k + RECORD_SIZE];
    }
  }

  /** The point records follow the directional ones. */
  lemma PackedPoint(directional: seq<DirectionalLight>, point: seq<PointLight>)
    ensures var data := Packed(directional, point);
            forall k | 0 <= k < |point| ::
              var at := HEADER_SIZE + RECORD_SIZE * |directional| + RECORD_SIZE * k;
              at + RECORD_SIZE <= |data| && data[at..at + RECORD_SIZE] == PointRecord(point[k])
  {
    RecordsLayout(directional, DirectionalRecord);
    RecordsLayout(point, PointRecord);
    var ps := Records(point, PointRecord);
    var data := Packed(directional, point);
    var front := Header(|directional|, |point|) + Records(directional, DirectionalRecord);
    assert data == front + ps;
    forall k | 0 <= k < |point|
      ensures var at := HEADER_SIZE + RECORD_SIZE * |directional| + RECORD_SIZE * k;
              data[at..at + RECORD_SIZE] == PointRecord(point[k])
    {
      var at := HEADER_SIZE + RECORD_SIZE * |directional| + RECORD_SIZE * k;
      assert data[at..at + RECORD_SIZE] == ps[RECORD_SIZE * k..RECORD_SIZE * k + RECORD_SIZE];
    }
  }

  function DirectionalAt(data: seq<F32>, at: nat): (r: DirectionalLight)
    requires at + RECORD_SIZE <= |data|
  {
    DirectionalLight(Vec3(data[at], data[at + 1], data[at + 2]), Vec3(data[at + 4], data[at + 5], data[at + 6]))
  }

  function PointAt(data: seq<F32>, at: nat): (r: PointLight)
    requires at + RECORD_SIZE <= |data|
  {
    PointLight(Vec3(data[at], data[at + 1], data[at + 2]), Vec3(data[at + 4], data[at + 5], data[at + 6]))
  }

  /** A record read back at the position it was written to. */
  lemma ReadRecord(data: seq<F32>, at: nat, v: Vec3, c: Vec3)
    requires at + RECORD_SIZE <= |data| && data[at..at + RECORD_SIZE] == Record(v, c)
    ensures DirectionalAt(data, at) == DirectionalLight(v, c)
    ensures PointAt(data, at) == PointLight(v, c)
  {
    var r := data[at..at + RECORD_SIZE];
    assert r[0] == data[at] && r[1] == data[at + 1] && r[2] == data[at + 2];
    assert r[4] == data[at + 4] && r[5] == data[at + 5] && r[6] == data[at + 6];
  }

  /** How the shader reads the buffer back: the counts from the header, then
      that many records of each kind. */
  function Unpack(data: seq<F32>): (r: Option<(seq<DirectionalLight>, seq<PointLight>)>)
  {
    if |data| < HEADER_SIZE then None
    else
      var nd := F32Cast.ExactCount(data[0]);
      var np := F32Cast.ExactCount(data[1]);
      if nd.None? || np.None? || |data| != PackedSize(nd.value, np.value) then None
      else
        Some((DirectionalsAt(data, nd.value), PointsAt(data, nd.value, np.value)))
  }

  /** The `count` directional records after the header. */
  function DirectionalsAt(data: seq<F32>, count: nat): (r: seq<DirectionalLight>)
    requires HEADER_SIZE + RECORD_SIZE * count <= |data|
  {
    seq(count, k requires 0 <= k < count => DirectionalAt(data, HEADER_SIZE + RECORD_SIZE * k))
  }

  /** The `count` point records after `skipped` directional ones. */
  function PointsAt(data: seq<F32>, skipped: nat, count: nat): (r: seq<PointLight>)
    requires PackedSize(skipped, count) <= |data|
  {
    seq(count, k requires 0 <= k < count => PointAt(data, HEADER_SIZE + RECORD_SIZE * skipped + RECORD_SIZE * k))
  }

  /** What `Unpack` returns for a buffer whose header holds exact counts
      that match its length. */
  lemma UnpackShape(data: seq<F32>, nd: nat, np: nat)
    requires |data| == PackedSize(nd, np)
    requires F32Cast.ExactCount(data[0]) == Some(nd) && F32Cast.ExactCount(data[1]) == Some(np)
    ensures Unpack(data) == Some((DirectionalsAt(data, nd), PointsAt(data, nd, np)))
  {
  }

  /** The directional records read back are the directional lights. */
  lemma ReadDirectional(directional: seq<DirectionalLight>, point: seq<PointLight>)
    ensures var data := Packed(directional, point);
            var nd := |directional|;
            |data| == PackedSize(nd, |point|) && DirectionalsAt(data, nd) == directional
  {
    var data := Packed(directional, point);
    PackedHeader(directional, point);
    PackedDirectional(directional, point);
    var r := DirectionalsAt(data, |directional|);
    forall k | 0 <= k < |directional|
      ensures r[k] == directional[k]
    {
      var l := directional[k];
      ReadRecord(data, HEADER_SIZE + RECORD_SIZE * k, l.direction, l.illuminance);
    }
    assert r == directional;
  }

  /** The point records read back are the point lights. */
  lemma ReadPoint(directional: seq<DirectionalLight>, point: seq<PointLight>)
    ensures var data := Packed(directional, point);
            var nd, np := |directional|, |point|;
            |data| == PackedSize(nd, np) && PointsAt(data, nd, np) == point
  {
    var data := Packed(directional, point);
    var nd := |directional|;
    PackedHeader(directional, point);
    PackedPoint(directional, point);
    var r := PointsAt(data, nd, |point|);
    forall k | 0 <= k < |point|
      ensures r[k] == point[k]
    {
      var l := point[k];
      ReadRecord(data, HEADER_SIZE + RECORD_SIZE * nd + RECORD_SIZE * k, l.position, l.luminousFlux);
    }
    assert r == point;
  }

  /** Counts below 2^24 read back from the header exactly. */
  lemma ReadCounts(directional: seq<DirectionalLight>, point: seq<PointLight>)
    requires |directional| < 2 * F32Cast.MANTISSA_UNIT && |point| < 2 * F32Cast.MANTISSA_UNIT
    ensures var data := Packed(directional, point);
            && |data| == PackedSize(|directional|, |point|)
            && F32Cast.ExactCount(data[0]) == Some(|directional|)
            && F32Cast.ExactCount(data[1]) == Some(|point|)
  {
    PackedHeader(directional, point);
    F32Cast.CountAsF32Exact(|directional|);
    F32Cast.CountAsF32Exact(|point|);
  }

  /** Reading the packed buffer back gives the lights, in order, as long as
      each count is exact as an `f32` (below 2^24). */
  lemma PackedRoundTrip(directional: seq<DirectionalLight>, point: seq<PointLight>)
    requires |directional| < 2 * F32Cast.MANTISSA_UNIT && |point| < 2 * F32Cast.MANTISSA_UNIT
    ensures Unpack(Packed(directional, point)) == Some((directional, point))
  {
    ReadCounts(directional, point);
    UnpackShape(Packed(directional, point), |directional|, |point|);
    ReadDirectional(directional, point);
    ReadPoint(directional, point);
  }

  type DescriptorSet = nat

  /** `vk::DescriptorType::STORAGE_BUFFER`. */
  const STORAGE_BUFFER_DESCRIPTOR: nat := 7

  /** One `vk::WriteDescriptorSet` with a single `vk::DescriptorBufferInfo`. */
  datatype DescriptorWrite = DescriptorWrite(
    dstSet: DescriptorSet,
    dstBinding: nat,
    descriptorType: nat,
    buffer: BufferHandle,
    offset: nat,
    range: nat)

  /** The write that points binding 0 of `descriptorSet` at the whole light buffer. */
  function LightWrite(descriptorSet: DescriptorSet, buffer: BufferHandle, range: nat): (r: DescriptorWrite)
  {
    DescriptorWrite(descriptorSet, 0, STORAGE_BUFFER_DESCRIPTOR, buffer, 0, range)
  }

  /** `LightManager`: the lights added so far, in order. */
  class LightManager {
    var directionalLights: seq<DirectionalLight>
    var pointLights: seq<PointLight>

    /** `LightManager::default`. */
    constructor Default()
      ensures directionalLights == [] && pointLights == []
    {
      directionalLights := [];
      pointLights := [];
    }

    /** `add_light`: append the light to the list of its kind. */
    method AddLight(l: Light)
      modifies this
      ensures l.Directional? ==>
                directionalLights == old(directionalLights) + [l.directional] && pointLights == old(pointLights)
      ensures l.Point? ==>
                pointLights == old(pointLights) + [l.point] && directionalLights == old(directionalLights)
    {
      match l {
        case Directional(dl) => directionalLights := directionalLights + [dl];
        case Point(pl) => pointLights := pointLights + [pl];
      }
    }

    /** The packing loops at the start of `update_buffer`. */
    method PackData() returns (data: seq<F32>)
      ensures data == Packed(directionalLights, pointLights)
    {
      data := Header(|directionalLights|, |pointLights|);
      for i := 0 to |directionalLights|
        invariant data == Header(|directionalLights|, |pointLights|)
                          + Records(directionalLights[..i], DirectionalRecord)
      {
        assert directionalLights[..i + 1][..i] == directionalLights[..i];
        data := data + DirectionalRecord(directionalLights[i]);
      }
      assert directionalLights[..|directionalLights|] == directionalLights;
      var prefix := data;
      for i := 0 to |pointLights|
        invariant data == prefix + Records(pointLights[..i], PointRecord)
      {
        assert pointLights[..i + 1][..i] == pointLights[..i];
        data := data + PointRecord(pointLights[i]);
      }
      assert pointLights[..|pointLights|] == pointLights;
    }

    /** `update_buffer`: pack the lights, `fill` the buffer with them and, when
        the fill replaced the buffer (its size changed), point binding 0 of
        every light descriptor set at the new buffer. Returns the descriptor
        writes made, in order. */
    method UpdateBuffer(gpu: Gpu, buffer: EngineBuffer<F32>, descriptorSetsLight: seq<DescriptorSet>)
      returns (writes: seq<DescriptorWrite>)
      requires buffer.CanFill(gpu, F32_BYTES * PackedSize(|directionalLights|, |pointLights|))
      modifies buffer, gpu
      ensures gpu.Valid() && buffer.Valid(gpu)
      ensures buffer.usage == old(buffer.usage) && buffer.memoryUsage == old(buffer.memoryUsage)
      ensures buffer.sizeInBytes
              == Max(old(buffer.sizeInBytes), F32_BYTES * PackedSize(|directionalLights|, |pointLights|))
      ensures old(buffer.allocation).Some? ==> buffer.allocation.Some?
      ensures buffer.allocation.Some? ==> |buffer.mapped| >= PackedSize(|directionalLights|, |pointLights|)
      ensures buffer.allocation.Some? ==>
                buffer.mapped[..PackedSize(|directionalLights|, |pointLights|)]
                  == Packed(directionalLights, pointLights)
      ensures writes
              == if F32_BYTES * PackedSize(|directionalLights|, |pointLights|) > old(buffer.sizeInBytes)
                 then LightWrites(descriptorSetsLight, buffer.buffer,
                                  F32_BYTES * PackedSize(|directionalLights|, |pointLights|))
                 else []
    {
      var data := PackData();
      PackedHeader(directionalLights, pointLights);
      var oldSize := buffer.sizeInBytes;
      buffer.Fill(gpu, data, F32_BYTES);
      writes := [];
      if oldSize != buffer.sizeInBytes {
        writes := WriteDescriptorSets(descriptorSetsLight, buffer.buffer, F32_BYTES * |data|);
      }
    }
  }

  /** The writes that point every set at the light buffer, in order. */
  function LightWrites(descriptorSets: seq<DescriptorSet>, buffer: BufferHandle, range: nat): (r: seq<DescriptorWrite>)
    ensures |r| == |descriptorSets|
    ensures forall k | 0 <= k < |r| ::
              && r[k].dstSet == descriptorSets[k] && r[k].dstBinding == 0
              && r[k].descriptorType == STORAGE_BUFFER_DESCRIPTOR
              && r[k].buffer == buffer && r[k].offset == 0 && r[k].range == range
  {
    seq(|descriptorSets|, k requires 0 <= k < |descriptorSets| => LightWrite(descriptorSets[k], buffer, range))
  }

  /** The descriptor loop of `update_buffer`, one `update_descriptor_sets`
      call per set. */
  method WriteDescriptorSets(descriptorSets: seq<DescriptorSet>, buffer: BufferHandle, range: nat)
    returns (writes: seq<DescriptorWrite>)
    ensures writes == LightWrites(descriptorSets, buffer, range)
  {
    writes := [];
    for i := 0 to |descriptorSets|
      invariant writes == LightWrites(descriptorSets[..i], buffer, range)
    {
      writes := writes + [LightWrite(descriptorSets[i], buffer, range)];
    }
    assert descriptorSets[..|descriptorSets|] == descriptorSets;
  }
}
