/**
 * `compressDocxBuffer` of lib/convert-api/docx-to-pdf/compress-docx.ts:
 * below a size threshold the document is returned untouched; otherwise
 * each media entry of the package that is a large enough photo is resized
 * and/or re-encoded, and the new data replaces the old one in place when it
 * is clearly smaller. The zip reader and writer and the image library are
 * parameters.
 */
module CompressDocx {
  import opened Wrappers
  import opened Text
  import opened ImageTransform

  datatype Options = Options(
    maxWidth: int, maxHeight: int, quality: int, convertPngPhotos: bool,
    preferWebP: bool, minBytesToTouch: int, thresholdBytes: int)

  const MiB := 1024 * 1024

  /** The defaults, with the threshold `COMPRESS_THRESHOLD_MB` (15 when unset) in MiB. */
  function DefaultOptions(thresholdMb: int): (o: Options)
    ensures o.thresholdBytes == thresholdMb * MiB
  {
    Options(1900, 1900, 78, true, false, 100 * 1024, thresholdMb * MiB)
  }

  /** One entry of the package as the zip reader lists it. */
  datatype ZipEntry = ZipEntry(entryName: string, isDirectory: bool, data: Bytes)

  /** The whole document is left alone when a positive threshold is not exceeded. */
  predicate SkipWhole(opts: Options, inputLength: nat)
  {
    opts.thresholdBytes > 0 && inputLength <= opts.thresholdBytes
  }

  predicate IsMediaFile(e: ZipEntry)
  {
    StartsWith(e.entryName, "word/media/") && !e.isDirectory
  }

  /** A media file big enough to touch whose metadata shows a photo with both dimensions. */
  predicate Eligible(opts: Options, e: ZipEntry, meta: Option<Meta>)
  {
    && IsMediaFile(e) && |e.data| >= opts.minBytesToTouch
    && meta.Some? && meta.value.width > 0 && meta.value.height > 0
    && IsPhotoFormat(meta.value.format)
  }

  predicate NeedsResize(opts: Options, m: Meta)
  {
    m.width > opts.maxWidth || m.height > opts.maxHeight
  }

  /**
   * The pipeline an entry goes through, if any: an eligible entry that needs
   * resizing always does; without resizing only an opaque PNG does.
   */
  function EntryPlan(opts: Options, e: ZipEntry, meta: Option<Meta>): (p: Option<Plan>)
    ensures p.Some? ==> Eligible(opts, e, meta)
    ensures Eligible(opts, e, meta) && NeedsResize(opts, meta.value) ==> p.Some?
    ensures Eligible(opts, e, meta) && !NeedsResize(opts, meta.value) ==> (p.Some? <==> IsOpaquePng(meta.value))
    ensures p.Some? ==> p.value.resize == NeedsResize(opts, meta.value)
    ensures p.Some? ==> p.value.encoding == TargetEncoding(meta.value, opts.convertPngPhotos, opts.preferWebP)
  {
    if !Eligible(opts, e, meta) then None
    else
      var m := meta.value;
      if !NeedsResize(opts, m) && !IsOpaquePng(m) then None
      else Some(Plan(NeedsResize(opts, m), TargetEncoding(m, opts.convertPngPhotos, opts.preferWebP)))
  }

  /** The replace rule: the new data must be strictly below 97% of the old. */
  predicate StrictlySmaller(out: Bytes, orig: Bytes)
  {
    100 * |out| < 97 * |orig|
  }

  /** What the loop body does with one entry. */
  datatype Visit = Kept | Replaced(data: Bytes) | Threw

  /**
   * The outcome for one entry: it throws when its pipeline throws, and it
   * is replaced when the pipeline's output is strictly below 97% of the data.
   */
  function Visited(opts: Options, e: ZipEntry, probe: Bytes -> Option<Meta>,
                   encode: (Bytes, Plan) -> Option<Bytes>): (v: Visit)
    ensures v.Threw? <==>
      EntryPlan(opts, e, probe(e.data)).Some? && encode(e.data, EntryPlan(opts, e, probe(e.data)).value).None?
    ensures v.Replaced? <==>
      && EntryPlan(opts, e, probe(e.data)).Some?
      && encode(e.data, EntryPlan(opts, e, probe(e.data)).value).Some?
      && StrictlySmaller(encode(e.data, EntryPlan(opts, e, probe(e.data)).value).value, e.data)
    ensures v.Replaced? ==> Some(v.data) == encode(e.data, EntryPlan(opts, e, probe(e.data)).value)
  {
    match EntryPlan(opts, e, probe(e.data))
    case None => Kept
    case Some(plan) =>
      match encode(e.data, plan)
      case None => Threw
      case Some(out) => if StrictlySmaller(out, e.data) then Replaced(out) else Kept
  }

  /** The pipeline runs on this entry and throws. */
  predicate Throws(opts: Options, e: ZipEntry, probe: Bytes -> Option<Meta>,
                   encode: (Bytes, Plan) -> Option<Bytes>)
  {
    Visited(opts, e, probe, encode).Threw?
  }

  /** The entry after the loop has visited it: same name and kind, data replaced or kept. */
  function Compressed(opts: Options, e: ZipEntry, probe: Bytes -> Option<Meta>,
                      encode: (Bytes, Plan) -> Option<Bytes>): (r: ZipEntry)
    ensures r.entryName == e.entryName && r.isDirectory == e.isDirectory
    ensures r.data == e.data || (IsMediaFile(e) && StrictlySmaller(r.data, e.data))
  {
    match Visited(opts, e, probe, encode)
    case Replaced(out) => e.(data := out)
    case _ => e
  }

  /** Every entry after the loop. */
  function CompressAll(opts: Options, es: seq<ZipEntry>, probe: Bytes -> Option<Meta>,
                       encode: (Bytes, Plan) -> Option<Bytes>): (r: seq<ZipEntry>)
    ensures |r| == |es|
    ensures forall i :: 0 <= i < |es| ==> r[i] == Compressed(opts, es[i], probe, encode)
  {
    seq(|es|, i requires 0 <= i < |es| => Compressed(opts, es[i], probe, encode))
  }

  /** How many of `es` get replaced. */
  function ChangedCount(opts: Options, es: seq<ZipEntry>, probe: Bytes -> Option<Meta>,
                        encode: (Bytes, Plan) -> Option<Bytes>): nat
  {
    if es == [] then 0
    else ChangedCount(opts, es[..|es| - 1], probe, encode)
         + (if Visited(opts, es[|es| - 1], probe, encode).Replaced? then 1 else 0)
  }

  /** How many of `es` are eligible photos under `word/media/`. */
  function EligibleCount(opts: Options, es: seq<ZipEntry>, probe: Bytes -> Option<Meta>): nat
  {
    if es == [] then 0
    else EligibleCount(opts, es[..|es| - 1], probe)
         + (if Eligible(opts, es[|es| - 1], probe(es[|es| - 1].data)) then 1 else 0)
  }

  /** The counter never exceeds the number of eligible media entries. */
  lemma {:induction false} ChangedAtMostEligible(opts: Options, es: seq<ZipEntry>,
                                                 probe: Bytes -> Option<Meta>, encode: (Bytes, Plan) -> Option<Bytes>)
    ensures ChangedCount(opts, es, probe, encode) <= EligibleCount(opts, es, probe)
    decreases |es|
  {
    if es != [] {
      ChangedAtMostEligible(opts, es[..|es| - 1], probe, encode);
    }
  }

  /**
   * The fetch-time transform and this pass disagree exactly on outputs of
   * 97% of the input: those are kept by the former and refused here.
   */
  lemma BoundaryDiffersFromTransform(orig: Bytes, out: Bytes)
    ensures KeepAtMost(out, orig) != StrictlySmaller(out, orig) <==> 100 * |out| == 97 * |orig|
    ensures StrictlySmaller(out, orig) ==> KeepAtMost(out, orig)
  {
  }

  lemma CountStep(opts: Options, es: seq<ZipEntry>, i: nat, probe: Bytes -> Option<Meta>,
                  encode: (Bytes, Plan) -> Option<Bytes>)
    requires i < |es|
    ensures ChangedCount(opts, es[..i + 1], probe, encode)
            == ChangedCount(opts, es[..i], probe, encode)
               + (if Visited(opts, es[i], probe, encode).Replaced? then 1 else 0)
  {
    assert es[..i + 1][..i] == es[..i];
  }

  /**
   * The body of the loop for one entry, with its early exits in the order
   * the source takes them.
   */
  method VisitEntry(e: ZipEntry, opts: Options, probe: Bytes -> Option<Meta>,
                    encode: (Bytes, Plan) -> Option<Bytes>)
    returns (v: Visit)
    ensures v == Visited(opts, e, probe, encode)
  {
    v := Kept;
    if !StartsWith(e.entryName, "word/media/") || e.isDirectory { return; }
    var orig := e.data;
    if |orig| < opts.minBytesToTouch { return; }
    var meta := probe(orig);
    if meta.None? { return; }
    var m := meta.value;
    if m.width == 0 || m.height == 0 { return; }
    var fmt := m.format;
    var isJpeg := fmt == "jpeg" || fmt == "jpg";
    var isPng := fmt == "png";
    var isPhoto := isJpeg || fmt == "webp" || isPng || fmt == "tiff";
    if !isPhoto { return; }
    var needsResize := m.width > opts.maxWidth || m.height > opts.maxHeight;
    var pngNoAlpha := isPng && m.hasAlpha != Some(true);
    if !needsResize && isJpeg { return; }
    if !needsResize && isPng && m.hasAlpha == Some(true) { return; }
    if !needsResize && !(isPng && pngNoAlpha) { return; }
    var target := TargetEncoding(m, opts.convertPngPhotos, opts.preferWebP);
    var out := encode(orig, Plan(needsResize, target));
    if out.None? { return Threw; }
    if 100 * |out.value| < 97 * |orig| {
      v := Replaced(out.value);
    }
  }

  /** The first `i` entries of `es` are rewritten in `cur`, none of them throws, and the rest are untouched. */
  ghost predicate RewrittenUpTo(opts: Options, es: seq<ZipEntry>, cur: seq<ZipEntry>, i: nat,
                                probe: Bytes -> Option<Meta>, encode: (Bytes, Plan) -> Option<Bytes>)
  {
    |cur| == |es| && i <= |es|
    && (forall k :: 0 <= k < i ==> cur[k] == Compressed(opts, es[k], probe, encode))
    && (forall k :: i <= k < |es| ==> cur[k] == es[k])
    && (forall k :: 0 <= k < i ==> !Throws(opts, es[k], probe, encode))
  }

  lemma RewriteStep(opts: Options, es: seq<ZipEntry>, before: seq<ZipEntry>, after: seq<ZipEntry>, i: nat,
                    probe: Bytes -> Option<Meta>, encode: (Bytes, Plan) -> Option<Bytes>)
    requires RewrittenUpTo(opts, es, before, i, probe, encode) && i < |es|
    requires !Throws(opts, es[i], probe, encode)
    requires after == before[i := Compressed(opts, es[i], probe, encode)]
    ensures RewrittenUpTo(opts, es, after, i + 1, probe, encode)
  {
  }

  lemma RewrittenAll(opts: Options, es: seq<ZipEntry>, cur: seq<ZipEntry>,
                     probe: Bytes -> Option<Meta>, encode: (Bytes, Plan) -> Option<Bytes>)
    requires RewrittenUpTo(opts, es, cur, |es|, probe, encode)
    ensures cur == CompressAll(opts, es, probe, encode)
    ensures !exists k :: 0 <= k < |es| && Throws(opts, es[k], probe, encode)
  {
  }

  /**
   * `for (const e of entries) { ... }`: each entry is visited in order and
   * rewritten in place (`e.setData(out)`); `threw` when a pipeline throws,
   * which ends the loop.
   */
  method RewriteEntries(entries: array<ZipEntry>, opts: Options, probe: Bytes -> Option<Meta>,
                        encode: (Bytes, Plan) -> Option<Bytes>)
    returns (threw: bool, changed: nat)
    modifies entries
    ensures threw <==> exists i :: 0 <= i < entries.Length && Throws(opts, old(entries[i]), probe, encode)
    ensures !threw ==> entries[..] == CompressAll(opts, old(entries[..]), probe, encode)
    ensures !threw ==> changed == ChangedCount(opts, old(entries[..]), probe, encode)
  {
    ghost var es := entries[..];
    changed := 0;
    for i := 0 to entries.Length
      invariant RewrittenUpTo(opts, es, entries[..], i, probe, encode)
      invariant changed == ChangedCount(opts, es[..i], probe, encode)
    {
      CountStep(opts, es, i, probe, encode);
      var v := VisitEntry(entries[i], opts, probe, encode);
      if v.Threw? {
        assert Throws(opts, old(entries[i]), probe, encode);
        return true, changed;
      }
      ghost var before := entries[..];
      if v.Replaced? {
        entries[i] := entries[i].(data := v.data);
        changed := changed + 1;
      }
      RewriteStep(opts, es, before, entries[..], i, probe, encode);
    }
    RewrittenAll(opts, es, entries[..], probe, encode);
    assert es[..entries.Length] == es;
    assert forall k :: 0 <= k < entries.Length ==> old(entries[k]) == es[k];
    threw := false;
  }

  /** What `compressDocxBuffer` resolves with. */
  datatype Compression = Compression(buffer: Bytes, changed: nat)

  /**
   * `compressDocxBuffer(input, opts)`: the zip's entries are held in an
   * array and rewritten in place; the result holds the re-packed zip and
   * the number of replaced entries, or `None` when an encoder throws.
   */
  method CompressDocxBuffer(input: Bytes, opts: Options, unzip: Bytes -> seq<ZipEntry>,
                            probe: Bytes -> Option<Meta>, encode: (Bytes, Plan) -> Option<Bytes>,
                            pack: seq<ZipEntry> -> Bytes)
    returns (r: Option<Compression>)
    ensures SkipWhole(opts, |input|) ==> r == Some(Compression(input, 0))
    ensures !SkipWhole(opts, |input|) ==>
      (r.None? <==> exists i :: 0 <= i < |unzip(input)| && Throws(opts, unzip(input)[i], probe, encode))
    ensures !SkipWhole(opts, |input|) && r.Some? ==>
      r.value == Compression(pack(CompressAll(opts, unzip(input), probe, encode)),
                             ChangedCount(opts, unzip(input), probe, encode))
    ensures r.Some? ==> r.value.changed <= EligibleCount(opts, unzip(input), probe)
  {
    ChangedAtMostEligible(opts, unzip(input), probe, encode);
    if opts.thresholdBytes > 0 && |input| <= opts.thresholdBytes {
      return Some(Compression(input, 0));
    }
    var es := unzip(input);
    var entries := new ZipEntry[|es|](i requires 0 <= i < |es| => es[i]);
    assert entries[..] == es;
    var threw, changed := RewriteEntries(entries, opts, probe, encode);
    if threw {
      return None;
    }
    r := Some(Compression(pack(entries[..]), changed));
  }
}
