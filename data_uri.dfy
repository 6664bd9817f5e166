/** `dataURItoBlob`: split a `data:` URL (section 3 of RFC 2397) into its
    media type and its base64-decoded bytes, copied into a fresh byte array. */
module DataUri {
  import opened Wrappers
  import opened Base64

  /** An element of a `Uint8Array`. */
  newtype byte = x: int | 0 <= x < 256

  /** ToUint8 of section 7.1.11 of ECMA-262, applied when a number is stored
      into a `Uint8Array`: the value modulo 256. */
  function ToUint8(n: int): (b: byte)
    ensures 0 <= n < 256 ==> b as int == n
  {
    (n % 256) as byte
  }

  /** `s.split(sep)` for a one-character separator: the maximal runs between
      separators, so one more piece than there are separators. */
  function Split(s: string, sep: char): (parts: seq<string>)
    ensures |parts| >= 1
    ensures |parts| == 1 <==> sep !in s
    ensures forall i :: 0 <= i < |parts| ==> sep !in parts[i]
    decreases |s|
  {
    if s == [] then [[]]
    else
      var rest := Split(s[1..], sep);
      if s[0] == sep then [[]] + rest else [[s[0]] + rest[0]] + rest[1..]
  }

  /** Without a separator the string is its own single piece. */
  lemma {:induction false} SplitWhole(s: string, sep: char)
    requires sep !in s
    ensures Split(s, sep) == [s]
    decreases |s|
  {
    if s != [] {
      SplitWhole(s[1..], sep);
      assert s == [s[0]] + s[1..];
    }
  }

  /** Every character of a piece is a character of the string. */
  lemma {:induction false} SplitPieceChars(s: string, sep: char, i: nat, c: char)
    requires i < |Split(s, sep)| && c in Split(s, sep)[i]
    ensures c in s
    decreases |s|
  {
    if s != [] {
      var rest := Split(s[1..], sep);
      if s[0] == sep {
        if i > 0 {
          SplitPieceChars(s[1..], sep, i - 1, c);
        }
      } else if i > 0 {
        SplitPieceChars(s[1..], sep, i, c);
      } else if c != s[0] {
        assert c in rest[0];
        SplitPieceChars(s[1..], sep, 0, c);
      }
    }
  }

  /** The pieces put back together with the separator between them. */
  function Join(parts: seq<string>, sep: char): string
    requires |parts| >= 1
    decreases |parts|
  {
    if |parts| == 1 then parts[0] else parts[0] + [sep] + Join(parts[1..], sep)
  }

  /** Splitting loses nothing: joining the pieces gives the string back. */
  lemma {:induction false} JoinSplit(s: string, sep: char)
    ensures Join(Split(s, sep), sep) == s
    decreases |s|
  {
    if s != [] {
      var rest := Split(s[1..], sep);
      JoinSplit(s[1..], sep);
      var parts := Split(s, sep);
      if s[0] == sep {
        assert parts[1..] == rest;
        assert s == [sep] + s[1..];
      } else {
        assert parts[1..] == rest[1..];
        if |rest| == 1 {
          assert s == [s[0]] + rest[0];
        } else {
          assert s[1..] == rest[0] + [sep] + Join(rest[1..], sep);
          assert s == [s[0]] + s[1..];
        }
      }
    }
  }

  /** A prefix without the separator joins the first piece. */
  lemma {:induction false} SplitPrefix(a: string, b: string, sep: char)
    requires sep !in a
    ensures Split(a + b, sep) == [a + Split(b, sep)[0]] + Split(b, sep)[1..]
    decreases |a|
  {
    if a == [] {
      var p := Split(b, sep);
      assert a + b == b;
      assert a + p[0] == p[0];
      assert [p[0]] + p[1..] == p;
    } else {
      assert (a + b)[0] == a[0];
      assert (a + b)[1..] == a[1..] + b;
      SplitPrefix(a[1..], b, sep);
      var p := Split(b, sep);
      assert Split(a + b, sep) == [[a[0]] + (a[1..] + p[0])] + p[1..];
      assert [a[0]] + (a[1..] + p[0]) == a + p[0];
    }
  }

  /** Everything before the first separator is the first piece. */
  lemma SplitAtFirst(a: string, b: string, sep: char)
    requires sep !in a
    ensures Split(a + [sep] + b, sep) == [a] + Split(b, sep)
  {
    SplitPrefix(a, [sep] + b, sep);
    assert a + [sep] + b == a + ([sep] + b);
    var q := Split([sep] + b, sep);
    assert ([sep] + b)[0] == sep;
    assert ([sep] + b)[1..] == b;
    assert q == [[]] + Split(b, sep);
    assert a + q[0] == a;
  }

  /** The segment before the first comma. */
  function Header(uri: string): string {
    Split(uri, ',')[0]
  }

  /** What `atob(dataURI.split(",")[1])` is given: the segment between the
      first and second comma, or, when there is no comma, `undefined`
      converted to a string. */
  function Payload(uri: string): string {
    if ',' in uri then Split(uri, ',')[1] else "undefined"
  }

  /** Without a comma `atob` is handed "undefined", which it rejects. */
  lemma NoCommaRejected(uri: string)
    requires ',' !in uri
    ensures Atob(Payload(uri)) == None
  {
    AtobRejectsLength("undefined");
  }

  /** `dataURI.split(",")[0].split(":")[1].split(";")[0]`. */
  function MediaType(uri: string): (m: string)
    requires ':' in Header(uri)
    ensures ',' !in m && ':' !in m && ';' !in m
  {
    var header := Header(uri);
    var afterColon := Split(header, ':')[1];
    var m := Split(afterColon, ';')[0];
    assert ',' !in m && ':' !in m by {
      forall c | c in m
        ensures c != ',' && c != ':'
      {
        SplitPieceChars(afterColon, ';', 0, c);
        SplitPieceChars(header, ':', 1, c);
        SplitPieceChars(uri, ',', 0, c);
      }
    }
    m
  }

  /** The inputs on which `dataURItoBlob` returns a blob: a payload `atob`
      accepts and a colon in the header. Anything else throws. */
  predicate WellFormed(uri: string) {
    Atob(Payload(uri)).Some? && ':' in Header(uri)
  }

  /** The media type is the text after the first colon up to the next `;`,
      `:` or `,`. */
  lemma MediaTypeBetween(scheme: string, mime: string, rest: string)
    requires ',' !in scheme && ':' !in scheme
    requires ',' !in mime && ':' !in mime && ';' !in mime
    requires rest != [] && (rest[0] == ';' || rest[0] == ':' || rest[0] == ',')
    ensures ':' in Header(scheme + ":" + mime + rest)
    ensures MediaType(scheme + ":" + mime + rest) == mime
  {
    var uri := scheme + ":" + mime + rest;
    var first := Split(rest, ',')[0];
    SplitPrefix(scheme + ":" + mime, rest, ',');
    assert Header(uri) == scheme + [':'] + (mime + first);
    SplitAtFirst(scheme, mime + first, ':');
    var q := Split(first, ':')[0];
    SplitPrefix(mime, first, ':');
    assert Split(Header(uri), ':')[1] == mime + q;
    SplitPrefix(mime, q, ';');
    assert q == [] || q[0] == ';' by {
      if rest[0] == ';' {
        assert first[0] == ';';
        assert q[0] == ';';
      }
    }
    assert Split(q, ';')[0] == [];
    assert ':' in Header(uri) by {
      assert Header(uri)[|scheme|] == ':';
    }
  }

  /** The header a PNG capture carries names the type `image/png`. */
  lemma PngMediaType(payload: string)
    ensures ':' in Header("data:image/png;base64," + payload)
    ensures MediaType("data:image/png;base64," + payload) == "image/png"
  {
    var scheme, mime, rest := "data", "image/png", ";base64," + payload;
    assert "data:image/png;base64," + payload == scheme + ":" + mime + rest;
    assert ',' !in mime && ':' !in mime && ';' !in mime;
    MediaTypeBetween(scheme, mime, rest);
  }

  /** What `canvas.toDataURL(mime)` returns for an image encoded as `bytes`. */
  function DataUrl(mime: string, bytes: string): string
    requires IsBinary(bytes)
  {
    "data:" + mime + ";base64," + Btoa(bytes)
  }

  lemma BtoaHasNoComma(bytes: string)
    requires IsBinary(bytes)
    ensures ',' !in Btoa(bytes)
  {
    BtoaAlphabet(bytes);
  }

  /** The payload of such a URL is the encoding of the bytes. */
  lemma PayloadOfDataUrl(mime: string, bytes: string)
    requires ',' !in mime
    requires IsBinary(bytes)
    ensures ',' in DataUrl(mime, bytes)
    ensures Payload(DataUrl(mime, bytes)) == Btoa(bytes)
  {
    var uri, code := DataUrl(mime, bytes), Btoa(bytes);
    var front := "data:" + mime + ";base64";
    assert uri == front + [','] + code;
    assert uri[|front|] == ',';
    assert ',' !in front by {
      assert ',' !in "data:" && ',' !in ";base64";
    }
    BtoaHasNoComma(bytes);
    SplitAtFirst(front, code, ',');
    SplitWhole(code, ',');
  }

  /** The header of such a URL names the type it was made with. */
  lemma MediaTypeOfDataUrl(mime: string, bytes: string)
    requires ',' !in mime && ':' !in mime && ';' !in mime
    requires IsBinary(bytes)
    ensures ':' in Header(DataUrl(mime, bytes))
    ensures MediaType(DataUrl(mime, bytes)) == mime
  {
    var rest := ";base64," + Btoa(bytes);
    assert DataUrl(mime, bytes) == "data" + ":" + mime + rest;
    assert rest[0] == ';';
    MediaTypeBetween("data", mime, rest);
  }

  /** `dataURItoBlob` undoes `toDataURL`: the type and the bytes come back. */
  lemma DataUrlRoundTrip(mime: string, bytes: string)
    requires ',' !in mime && ':' !in mime && ';' !in mime
    requires IsBinary(bytes)
    ensures WellFormed(DataUrl(mime, bytes))
    ensures MediaType(DataUrl(mime, bytes)) == mime
    ensures Atob(Payload(DataUrl(mime, bytes))) == Some(bytes)
  {
    PayloadOfDataUrl(mime, bytes);
    MediaTypeOfDataUrl(mime, bytes);
    AtobBtoa(bytes);
  }

  /** The bytes and the type that `dataURItoBlob` hands to `new Blob`. */
  datatype BlobParts = BlobParts(bytes: array<byte>, mediaType: string)

  /** How a call of `dataURItoBlob` ends. */
  datatype Outcome = Undefined | Threw | Returned(blob: BlobParts)

  /** The loop of `dataURItoBlob` that stores each character code of the
      binary string into a fresh `Uint8Array`. */
  method CopyBytes(byteString: string) returns (ia: array<byte>)
    requires IsBinary(byteString)
    ensures fresh(ia)
    ensures ia.Length == |byteString|
    ensures forall i :: 0 <= i < |byteString| ==> ia[i] as int == byteString[i] as int
  {
    ia := new byte[|byteString|];
    for i := 0 to |byteString|
      invariant forall k :: 0 <= k < i ==> ia[k] == ToUint8(byteString[k] as int)
    {
      ia[i] := ToUint8(byteString[i] as int);
    }
    forall k | 0 <= k < |byteString|
      ensures ia[k] as int == byteString[k] as int
    {
      assert byteString[k] as int < 256;
    }
  }

  /** `dataURItoBlob(dataURI)`: `undefined` for an absent or empty input; a
      throw when `atob` rejects the payload or the header has no colon;
      otherwise the decoded payload copied byte by byte into a fresh array,
      with the media type of the header. */
  method DataUriToBlob(dataUri: Option<string>) returns (r: Outcome)
    ensures r.Undefined? <==> dataUri.None? || dataUri.value == []
    ensures r.Threw? <==> dataUri.Some? && dataUri.value != [] && !WellFormed(dataUri.value)
    ensures r.Returned? ==> fresh(r.blob.bytes)
    ensures r.Returned? ==> r.blob.mediaType == MediaType(dataUri.value)
    ensures r.Returned? ==>
      var byteString := Atob(Payload(dataUri.value)).value;
      r.blob.bytes.Length == |byteString| &&
      forall i :: 0 <= i < |byteString| ==> r.blob.bytes[i] as int == byteString[i] as int
  {
    if dataUri.None? || dataUri.value == [] {
      return Undefined;
    }
    var uri := dataUri.value;
    var decoded := Atob(Payload(uri));
    if decoded.None? {
      return Threw;
    }
    var byteString := decoded.value;
    if ':' !in Split(uri, ',')[0] {
      return Threw;
    }
    var mimeString := MediaType(uri);
    var ia := CopyBytes(byteString);
    return Returned(BlobParts(ia, mimeString));
  }
}
