/**
 * The two pure helpers of baby_browser/networking.py: `parse_url`, which
 * splits an `http://` URL into host and path (a simplified form of the
 * http URL of section 3.2.2 of RFC 1945), and `_encode_http_request`,
 * which turns request lines into the CRLF-terminated header block of
 * section 4.1 of RFC 1945, encoded as UTF-8.
 */
module Networking {

  const HttpNewline: string := "\r\n"
  const HttpPrefix: string := "http://"

  /** The `URL` dataclass. */
  datatype URL = URL(scheme: string, host: string, path: string, port: int)

  /** `parse_url` either returns a URL or fails its `assert` with the message. */
  datatype ParsedUrl = Parsed(url: URL) | AssertionError(message: string)

  /** The index of the first `c` in `s`, if there is one. */
  function IndexOf(s: string, c: char): (r: int)
    ensures -1 <= r < |s|
    ensures r >= 0 ==> s[r] == c && c !in s[..r]
    ensures r < 0 ==> c !in s
  {
    if s == [] then -1
    else if s[0] == c then 0
    else
      var r := IndexOf(s[1..], c);
      if r < 0 then -1
      else
        assert s[..r + 1] == [s[0]] + s[1..][..r];
        r + 1
  }

  /** `s.split(sep, 1)`: the text before the first `sep`, and the rest if there was one. */
  function SplitOnce(s: string, sep: char): (parts: seq<string>)
    ensures 1 <= |parts| <= 2
    ensures sep !in parts[0]
    ensures |parts| == 1 <==> sep !in s
    ensures |parts| == 1 ==> parts[0] == s
    ensures |parts| == 2 ==> s == parts[0] + [sep] + parts[1]
  {
    var i := IndexOf(s, sep);
    if i < 0 then [s]
    else
      assert s == s[..i] + [sep] + s[i + 1..];
      [s[..i], s[i + 1..]]
  }

  /**
   * `parse_url`: only `http://` URLs are accepted; the result has scheme
   * "http", port 80, a host without `/` and a path that starts with `/`.
   */
  function ParseUrl(url: string): (r: ParsedUrl)
    ensures r.Parsed? <==> HttpPrefix <= url
    ensures r.Parsed? ==> r.url.scheme == "http" && r.url.port == 80
    ensures r.Parsed? ==> '/' !in r.url.host && |r.url.path| >= 1 && r.url.path[0] == '/'
  {
    if !(HttpPrefix <= url) then AssertionError("Only http schema is supported")
    else
      var rest := url[|HttpPrefix|..];
      var parts := SplitOnce(rest, '/');
      var path := "/" + (if |parts| == 2 then parts[1] else "");
      Parsed(URL("http", parts[0], path, 80))
  }

  /**
   * The host is the text after the scheme up to the first `/`, or all of
   * it; putting scheme, host and path back together gives the input, with
   * a `/` appended when the input had no path.
   */
  lemma ParseUrlRoundTrip(url: string)
    requires HttpPrefix <= url
    ensures var u := ParseUrl(url).url;
      var rest := url[|HttpPrefix|..];
      && ('/' in rest ==> HttpPrefix + u.host + u.path == url)
      && ('/' !in rest ==> u.host == rest && u.path == "/" && HttpPrefix + u.host + u.path == url + "/")
  {
    var rest := url[|HttpPrefix|..];
    assert url == HttpPrefix + rest;
    var parts := SplitOnce(rest, '/');
    if |parts| == 2 {
      calc {
        HttpPrefix + parts[0] + ("/" + parts[1]);
        HttpPrefix + (parts[0] + ['/'] + parts[1]);
        HttpPrefix + rest;
      }
    }
  }

  /** `sep.join(parts)`. */
  function Join(sep: string, parts: seq<string>): string
    decreases |parts|
  {
    if parts == [] then ""
    else if |parts| == 1 then parts[0]
    else parts[0] + sep + Join(sep, parts[1..])
  }

  /** Every line followed by `sep`. */
  function Terminated(sep: string, lines: seq<string>): string
    decreases |lines|
  {
    if lines == [] then "" else lines[0] + sep + Terminated(sep, lines[1..])
  }

  /** The text of `_encode_http_request`, before encoding. */
  function RequestText(lines: seq<string>): string {
    Join(HttpNewline, lines + ["", ""])
  }

  /** Joining `lines` followed by two empty strings terminates every line and adds one more separator. */
  lemma {:induction false} JoinWithTwoEmpty(sep: string, lines: seq<string>)
    ensures Join(sep, lines + ["", ""]) == Terminated(sep, lines) + sep
    decreases |lines|
  {
    if lines == [] {
      assert lines + ["", ""] == ["", ""];
      assert Join(sep, [""]) == "";
      assert ["", ""][1..] == [""];
    } else {
      var tail := lines[1..] + ["", ""];
      assert (lines + ["", ""])[1..] == tail;
      JoinWithTwoEmpty(sep, lines[1..]);
      calc {
        Join(sep, lines + ["", ""]);
        lines[0] + sep + Join(sep, tail);
        lines[0] + sep + (Terminated(sep, lines[1..]) + sep);
        (lines[0] + sep + Terminated(sep, lines[1..])) + sep;
        Terminated(sep, lines) + sep;
      }
    }
  }

  /**
   * The request block is every line followed by CRLF, then one more CRLF;
   * with no lines it is a single CRLF.
   */
  lemma RequestTextShape(lines: seq<string>)
    ensures RequestText(lines) == Terminated(HttpNewline, lines) + HttpNewline
    ensures lines == [] ==> RequestText(lines) == HttpNewline
  {
    JoinWithTwoEmpty(HttpNewline, lines);
  }

  // ---------------------------------------------------------------------
  // UTF-8 (`.encode("utf-8")`)
  // ---------------------------------------------------------------------

  newtype byte = x: int | 0 <= x < 256

  /** The UTF-8 encoding of one Unicode scalar value. */
  function EncodeChar(c: char): (bs: seq<byte>)
    ensures 1 <= |bs| <= 4
    ensures (c as int < 128) <==> |bs| == 1
    ensures c as int < 128 ==> bs[0] as int == c as int
  {
    var n := c as int;
    if n < 0x80 then [n as byte]
    else if n < 0x800 then [(0xC0 + n / 0x40) as byte, (0x80 + n % 0x40) as byte]
    else if n < 0x10000 then
      [(0xE0 + n / 0x1000) as byte, (0x80 + (n / 0x40) % 0x40) as byte, (0x80 + n % 0x40) as byte]
    else
      [(0xF0 + n / 0x40000) as byte, (0x80 + (n / 0x1000) % 0x40) as byte,
       (0x80 + (n / 0x40) % 0x40) as byte, (0x80 + n % 0x40) as byte]
  }

  /** `s.encode("utf-8")`. */
  function Encode(s: string): (bs: seq<byte>)
    ensures |bs| >= |s|
    decreases |s|
  {
    if s == [] then [] else EncodeChar(s[0]) + Encode(s[1..])
  }

  /** Encoding distributes over concatenation. */
  lemma {:induction false} EncodeAppend(a: string, b: string)
    ensures Encode(a + b) == Encode(a) + Encode(b)
    decreases |a|
  {
    if a == [] {
      assert a + b == b;
    } else {
      assert (a + b)[0] == a[0];
      assert (a + b)[1..] == a[1..] + b;
      EncodeAppend(a[1..], b);
    }
  }

  /** A text of ASCII characters encodes to one byte per character, its code. */
  lemma {:induction false} EncodeAscii(s: string)
    requires forall i | 0 <= i < |s| :: s[i] as int < 128
    ensures |Encode(s)| == |s|
    ensures forall i | 0 <= i < |s| :: Encode(s)[i] as int == s[i] as int
    decreases |s|
  {
    if s != [] {
      EncodeAscii(s[1..]);
    }
  }

  /** `_encode_http_request`. */
  function EncodeHttpRequest(lines: seq<string>): (bs: seq<byte>)
    ensures bs == Encode(Terminated(HttpNewline, lines)) + [13, 10]
  {
    RequestTextShape(lines);
    EncodeAppend(Terminated(HttpNewline, lines), HttpNewline);
    assert HttpNewline[1..] == "\n";
    Encode(RequestText(lines))
  }

  /** The encoded request ends with the bytes CR LF of the closing empty line, and is exactly CR LF for no lines. */
  lemma EncodedRequestEnds(lines: seq<string>)
    ensures var bs := EncodeHttpRequest(lines);
      |bs| >= 2 && bs[|bs| - 2..] == [13, 10]
    ensures lines == [] ==> EncodeHttpRequest(lines) == [13, 10]
  {
    RequestTextShape(lines);
    EncodeAppend(Terminated(HttpNewline, lines), HttpNewline);
    assert HttpNewline[1..] == "\n";
    assert Encode(HttpNewline) == [13, 10];
  }
}
