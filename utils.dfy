/**
 The pure helpers of utils.py: `batch`, `prepare_text`, and the argument
 wrapping and data-URL stripping of `prepare_images` / `prepare_audio`. The
 decoders those two call (base64, the image reader and its RGB conversion,
 the audio reader) are a `decode` parameter: a string to a decoded value, or
 None where the decoder raises.
 */
module Utils {
  import opened Options

  // ---------------------------------------------------------------------------
  // batch

  function Min(a: int, b: int): int {
    if a < b then a else b
  }

  /** The slices `iterable[ndx:min(ndx + n, l)]` yielded for `ndx` in
      `range(start, l, n)`. */
  function Chunks<T>(xs: seq<T>, n: nat, start: nat): (r: seq<seq<T>>)
    requires n >= 1
    ensures r == [] <==> start >= |xs|
    decreases |xs| - start
  {
    if start >= |xs| then []
    else [xs[start..Min(start + n, |xs|)]] + Chunks(xs, n, start + n)
  }

  /** `batch(iterable, n)`: consecutive slices of length `n`. None stands for
      the ValueError of `range` with a zero step; a negative step makes
      `range(0, l, n)` empty, so nothing is yielded. */
  function Batch<T>(xs: seq<T>, n: int := 1): (r: Option<seq<seq<T>>>)
    ensures r.None? <==> n == 0
    ensures n < 0 ==> r == Some([])
  {
    if n == 0 then None
    else if n < 0 then Some([])
    else Some(Chunks(xs, n, 0))
  }

  /** The chunks laid end to end. */
  function Flatten<T>(css: seq<seq<T>>): seq<T> {
    if css == [] then [] else css[0] + Flatten(css[1..])
  }

  lemma {:induction false} ChunksFlatten<T>(xs: seq<T>, n: nat, start: nat)
    requires n >= 1 && start <= |xs|
    ensures Flatten(Chunks(xs, n, start)) == xs[start..]
    decreases |xs| - start
  {
    if start < |xs| {
      if start + n <= |xs| {
        ChunksFlatten(xs, n, start + n);
        assert xs[start..] == xs[start..start + n] + xs[start + n..];
      } else {
        assert Chunks(xs, n, start + n) == [];
      }
    }
  }

  /** Concatenating the chunks gives back the input exactly. */
  lemma BatchConcat<T>(xs: seq<T>, n: int)
    requires n >= 1
    ensures Batch(xs, n).Some? && Flatten(Batch(xs, n).value) == xs
  {
    ChunksFlatten(xs, n, 0);
  }

  lemma {:induction false} ChunksSizes<T>(xs: seq<T>, n: nat, start: nat)
    requires n >= 1
    ensures var css := Chunks(xs, n, start);
            && (forall i :: 0 <= i < |css| - 1 ==> |css[i]| == n)
            && (css != [] ==> 1 <= |css[|css| - 1]| <= n)
    decreases |xs| - start
  {
    if start < |xs| {
      ChunksSizes(xs, n, start + n);
      var first, rest := xs[start..Min(start + n, |xs|)], Chunks(xs, n, start + n);
      var css := Chunks(xs, n, start);
      assert css == [first] + rest;
      assert 1 <= |first| <= n;
      if rest != [] {
        assert |first| == n;
        forall i | 0 <= i < |css| - 1 ensures |css[i]| == n {
          if i > 0 { assert css[i] == rest[i - 1]; }
        }
      }
    }
  }

  lemma {:induction false} ChunksCount<T>(xs: seq<T>, n: nat, start: nat)
    requires n >= 1 && start <= |xs|
    ensures |Chunks(xs, n, start)| == (|xs| - start + n - 1) / n
    decreases |xs| - start
  {
    var rest := Chunks(xs, n, start + n);
    if start < |xs| {
      assert |Chunks(xs, n, start)| == 1 + |rest|;
      var a := |xs| - start - 1;
      if start + n <= |xs| {
        ChunksCount(xs, n, start + n);
        assert |rest| == a / n;
        DivStep(a, n);
        assert |xs| - start + n - 1 == a + n;
      } else {
        assert rest == [];
        DivUnique(a + n, n, 1, a);
      }
    } else {
      DivUnique(n - 1 + |xs| - start, n, 0, n - 1);
    }
  }

  lemma {:induction false} MulAtLeast(d: nat, n: int)
    requires d >= 1 && n >= 1
    ensures d * n >= n
  {
    if d > 1 {
      MulAtLeast(d - 1, n);
      assert d * n == (d - 1) * n + n;
    }
  }

  /** Euclidean division has one quotient. */
  lemma DivUnique(x: int, n: int, q: int, r: int)
    requires n >= 1 && 0 <= r < n && x == q * n + r
    ensures x / n == q
  {
    var q', r' := x / n, x % n;
    assert x == q' * n + r';
    assert (q' - q) * n == r - r';
    if q' > q {
      MulAtLeast(q' - q, n);
    } else if q' < q {
      assert (q - q') * n == r' - r;
      MulAtLeast(q - q', n);
    }
  }

  lemma DivStep(a: int, n: int)
    requires a >= 0 && n >= 1
    ensures (a + n) / n == a / n + 1
  {
    var q, r := a / n, a % n;
    assert a == q * n + r;
    assert a + n == (q + 1) * n + r;
    DivUnique(a + n, n, q + 1, r);
  }

  /** Every chunk has `n` items except the last, which has between 1 and `n`;
      there are ceil(len / n) chunks, none for an empty input. */
  lemma BatchChunks<T>(xs: seq<T>, n: int)
    requires n >= 1
    ensures Batch(xs, n).Some?
    ensures var css := Batch(xs, n).value;
            && |css| == (|xs| + n - 1) / n
            && (xs == [] <==> css == [])
            && (forall i :: 0 <= i < |css| - 1 ==> |css[i]| == n)
            && (css != [] ==> 1 <= |css[|css| - 1]| <= n)
  {
    ChunksCount(xs, n, 0);
    ChunksSizes(xs, n, 0);
  }

  // ---------------------------------------------------------------------------
  // prepare_text and the argument wrapping

  /** An argument passed either as one `str` or as a list of them. */
  datatype StrOrList = Str(s: string) | List(items: seq<string>)

  /** `prepare_text`: a single string becomes a one-item list and
      `return_list` is false; a list passes through with `return_list` true. */
  function PrepareText(text: StrOrList): (r: (seq<string>, bool))
    ensures r.1 <==> text.List?
    ensures !r.1 ==> |r.0| == 1
  {
    match text
    case Str(s) => ([s], false)
    case List(xs) => (xs, true)
  }

  /** The argument's shape recovered from the list and `return_list`. */
  function Restore(xs: seq<string>, returnList: bool): StrOrList
    requires returnList || |xs| == 1
  {
    if returnList then List(xs) else Str(xs[0])
  }

  /** The list and flag lose nothing: they determine the original argument. */
  lemma PrepareTextRoundTrip(text: StrOrList)
    ensures Restore(PrepareText(text).0, PrepareText(text).1) == text
  {
  }

  // ---------------------------------------------------------------------------
  // data-URL stripping

  /** The position of the first `c` in `s`. */
  function IndexOf(s: string, c: char): (r: Option<nat>)
    ensures r.None? <==> c !in s
    ensures r.Some? ==> r.value < |s| && s[r.value] == c && c !in s[..r.value]
  {
    if s == [] then None
    else if s[0] == c then Some(0)
    else match IndexOf(s[1..], c)
      case None => None
      case Some(i) =>
        assert s[..i + 1] == [s[0]] + s[1..][..i];
        Some(i + 1)
  }

  /** `s.split(',', 1)[1]`: everything after the first comma; None where there
      is no comma, so that element 1 does not exist (IndexError). */
  function AfterFirstComma(s: string): (r: Option<string>)
    ensures r.None? <==> ',' !in s
  {
    match IndexOf(s, ',')
    case None => None
    case Some(i) => Some(s[i + 1..])
  }

  /** A string starting with `prefix` ('data:image' or 'data:audio') loses
      everything up to and including its first comma; any other string is
      kept as it is. */
  function StripDataPrefix(s: string, prefix: string): (r: Option<string>)
    ensures !(prefix <= s) ==> r == Some(s)
    ensures prefix <= s ==> (r.None? <==> ',' !in s)
  {
    if prefix <= s then AfterFirstComma(s) else Some(s)
  }

  /** What is stripped is a comma-free header and its comma. */
  lemma StripShape(s: string, prefix: string)
    requires prefix <= s && StripDataPrefix(s, prefix).Some?
    ensures exists h :: ',' !in h && s == h + "," + StripDataPrefix(s, prefix).value
  {
    var i := IndexOf(s, ',').value;
    assert s == s[..i] + "," + s[i + 1..];
  }

  /** Stripping a data URL `header,payload` whose header has no comma gives back
      the payload, commas and all. */
  lemma StripDataUrl(header: string, payload: string, prefix: string)
    requires prefix <= header && ',' !in header
    ensures StripDataPrefix(header + "," + payload, prefix) == Some(payload)
  {
    var s := header + "," + payload;
    assert s[..|header|] == header;
    assert prefix <= s;
    var i := IndexOf(s, ',').value;
    assert s[|header|] == ',';
    assert s[i + 1..] == payload;
  }

  // ---------------------------------------------------------------------------
  // prepare_images / prepare_audio

  /** One item: strip the data-URL header, then decode; None where either raises. */
  function DecodeOne<T>(s: string, prefix: string, decode: string -> Option<T>): (r: Option<T>)
    ensures !(prefix <= s) ==> r == decode(s)
    ensures prefix <= s && ',' !in s ==> r.None?
  {
    match StripDataPrefix(s, prefix)
    case None => None
    case Some(payload) => decode(payload)
  }

  /** The loop of `prepare_images` / `prepare_audio`: each item in turn is
      stripped and decoded and appended; the first item that raises ends it. */
  method DecodeAll<T>(strs: seq<string>, prefix: string, decode: string -> Option<T>)
    returns (r: Option<seq<T>>)
    ensures r.Some? <==> forall i :: 0 <= i < |strs| ==> DecodeOne(strs[i], prefix, decode).Some?
    ensures r.Some? ==> |r.value| == |strs|
    ensures r.Some? ==> forall i :: 0 <= i < |strs| ==> DecodeOne(strs[i], prefix, decode) == Some(r.value[i])
  {
    var out: seq<T> := [];
    for i := 0 to |strs|
      invariant |out| == i
      invariant forall j :: 0 <= j < i ==> DecodeOne(strs[j], prefix, decode) == Some(out[j])
    {
      var s := strs[i];
      if prefix <= s {
        var tail := AfterFirstComma(s);
        if tail.None? {
          return None;
        }
        s := tail.value;
      }
      var decoded := decode(s);
      if decoded.None? {
        return None;
      }
      out := out + [decoded.value];
    }
    r := Some(out);
  }

  /** `prepare_images`: the decoded images, one per input string and in the
      same order, with `return_list` false exactly for a single `str`. */
  method PrepareImages<Img>(images: StrOrList, decode: string -> Option<Img>)
    returns (r: Option<(seq<Img>, bool)>)
    ensures var strs := PrepareText(images).0;
            r.Some? <==> forall i :: 0 <= i < |strs| ==> DecodeOne(strs[i], "data:image", decode).Some?
    ensures r.Some? ==> (r.value.1 <==> images.List?)
    ensures var strs := PrepareText(images).0;
            r.Some? ==> |r.value.0| == |strs| &&
                        forall i :: 0 <= i < |strs| ==> DecodeOne(strs[i], "data:image", decode) == Some(r.value.0[i])
  {
    var (imageStrs, returnList) := PrepareText(images);
    var decoded := DecodeAll(imageStrs, "data:image", decode);
    r := if decoded.Some? then Some((decoded.value, returnList)) else None;
  }

  /** `prepare_audio`: the decoded (samples, sample rate) pairs, one per input
      string and in the same order, with `return_list` false exactly for a
      single `str`. */
  method PrepareAudio<Audio>(audioDataUrl: StrOrList, decode: string -> Option<Audio>)
    returns (r: Option<(seq<Audio>, bool)>)
    ensures var strs := PrepareText(audioDataUrl).0;
            r.Some? <==> forall i :: 0 <= i < |strs| ==> DecodeOne(strs[i], "data:audio", decode).Some?
    ensures r.Some? ==> (r.value.1 <==> audioDataUrl.List?)
    ensures var strs := PrepareText(audioDataUrl).0;
            r.Some? ==> |r.value.0| == |strs| &&
                        forall i :: 0 <= i < |strs| ==> DecodeOne(strs[i], "data:audio", decode) == Some(r.value.0[i])
  {
    var (audioData, returnList) := PrepareText(audioDataUrl);
    var decoded := DecodeAll(audioData, "data:audio", decode);
    r := if decoded.Some? then Some((decoded.value, returnList)) else None;
  }
}
