/** The message field of a record in a CSV log (lib/plog/Formatters/CsvFormatter.h:30-45). */
module CsvField {
  import opened Wrappers

  const MAX_MESSAGE_SIZE: nat := 32000

  /** A long message is cut and marked. */
  function Truncated(message: string): (r: string)
    ensures |message| <= MAX_MESSAGE_SIZE ==> r == message
    ensures |message| > MAX_MESSAGE_SIZE ==>
              |r| == MAX_MESSAGE_SIZE + 3 && r[..MAX_MESSAGE_SIZE] <= message && r[MAX_MESSAGE_SIZE..] == "..."
  {
    if |message| > MAX_MESSAGE_SIZE then message[..MAX_MESSAGE_SIZE] + "..." else message
  }

  /** Every quote written twice. */
  function Doubled(message: string): string {
    if message == "" then ""
    else (if message[0] == '"' then "\"\"" else [message[0]]) + Doubled(message[1..])
  }

  /** A field of section 2 of RFC 4180: enclosed in quotes, with inner quotes doubled (rule 7). */
  function Quoted(message: string): string {
    "\"" + Doubled(message) + "\""
  }

  // ----- Writing -------------------------------------------------------------------------

  /** An input stream over a string, as far as std::getline uses one. */
  class StringStream {
    const text: string
    var at: nat
    var eof: bool

    ghost predicate Valid()
      reads this
    {
      at <= |text| && (eof ==> at == |text|)
    }

    constructor (text: string)
      ensures Valid() && this.text == text && at == 0 && !eof
    {
      this.text, at, eof := text, 0, false;
    }

    /** The characters up to the delimiter, which is taken but not returned, or up to the end, which is only
        noticed when no delimiter comes before it. */
    method GetLine(delimiter: char) returns (token: string)
      requires Valid() && !eof
      modifies this`at, this`eof
      ensures Valid() && delimiter !in token
      ensures if eof then text[old(at)..] == token
              else old(at) + |token| < |text| && at == old(at) + |token| + 1 && text[old(at)..at] == token + [delimiter]
    {
      token := "";
      var start := at;
      while at < |text| && text[at] != delimiter
        invariant start <= at <= |text| && token == text[start..at] && delimiter !in token && !eof
      {
        token := token + [text[at]];
        at := at + 1;
      }
      if at == |text| {
        assert text[start..] == token;
        eof := true;
      } else {
        assert text[start..at + 1] == token + [delimiter];
        at := at + 1;
      }
    }
  }

  lemma {:induction false} DoubledConcat(a: string, b: string)
    ensures Doubled(a + b) == Doubled(a) + Doubled(b)
    decreases a
  {
    if a == "" {
      assert a + b == b;
    } else {
      assert (a + b)[1..] == a[1..] + b;
      DoubledConcat(a[1..], b);
    }
  }

  lemma {:induction false} NothingDoubled(s: string)
    requires '"' !in s
    ensures Doubled(s) == s
    decreases s
  {
    if s != "" {
      NothingDoubled(s[1..]);
    }
  }

  /** A token between quotes, and what is to come, make up the field. */
  lemma TokenQuoted(before: string, token: string, rest: string)
    requires '"' !in token
    ensures before + "\"" + Doubled(token + "\"" + rest) + "\""
            == (before + "\"" + token + "\"") + "\"" + Doubled(rest) + "\""
    ensures before + "\"" + Doubled(token) + "\"" == before + "\"" + token + "\""
  {
    NothingDoubled(token);
    DoubledConcat(token, "\"" + rest);
    assert token + "\"" + rest == token + ("\"" + rest) && ("\"" + rest)[1..] == rest;
    assert Doubled(token + "\"" + rest) == token + ("\"\"" + Doubled(rest));
  }

  /** The field and the newline that end a record. */
  method FormatMessage(message: string) returns (r: string)
    ensures r == Quoted(Truncated(message)) + "\n"
  {
    var cut := message;
    if |cut| > MAX_MESSAGE_SIZE {
      cut := cut[..MAX_MESSAGE_SIZE] + "...";
    }
    var split := new StringStream(cut);
    r := "";
    assert cut[0..] == cut;
    while !split.eof
      invariant split.Valid() && split.text == cut
      invariant if split.eof then r == Quoted(cut) else r + "\"" + Doubled(cut[split.at..]) + "\"" == Quoted(cut)
      decreases |cut| - split.at, !split.eof
    {
      ghost var start := split.at;
      var token := split.GetLine('"');
      if !split.eof {
        assert cut[start..] == cut[start..split.at] + cut[split.at..];
      }
      TokenQuoted(r, token, if split.eof then "" else cut[split.at..]);
      r := r + "\"" + token + "\"";
    }
    r := r + "\n";
  }

  // ----- Reading -------------------------------------------------------------------------

  /** The text up to a quote that is not doubled, and what comes after that quote. */
  function ReadQuoted(s: string): Option<(string, string)> {
    if s == "" then None
    else if s[0] != '"' then
      var rest := ReadQuoted(s[1..]);
      if rest.None? then None else Some(([s[0]] + rest.value.0, rest.value.1))
    else if |s| > 1 && s[1] == '"' then
      var rest := ReadQuoted(s[2..]);
      if rest.None? then None else Some((['"'] + rest.value.0, rest.value.1))
    else Some(("", s[1..]))
  }

  /** Reads a quoted field off the front of a text. */
  function ReadField(s: string): Option<(string, string)> {
    if s == "" || s[0] != '"' then None else ReadQuoted(s[1..])
  }

  predicate NoQuoteFirst(s: string) {
    s != "" ==> s[0] != '"'
  }

  lemma {:induction false} DoubledReadsBack(message: string, rest: string)
    requires NoQuoteFirst(rest)
    ensures ReadQuoted(Doubled(message) + ("\"" + rest)) == Some((message, rest))
    decreases message
  {
    var s := Doubled(message) + ("\"" + rest);
    if message == "" {
      assert s == "\"" + rest && s[1..] == rest;
    } else {
      var tail := Doubled(message[1..]) + ("\"" + rest);
      DoubledReadsBack(message[1..], rest);
      assert message == [message[0]] + message[1..];
      if message[0] == '"' {
        assert s == "\"\"" + tail && s[2..] == tail;
      } else {
        assert s == [message[0]] + tail && s[1..] == tail;
      }
    }
  }

  /** Reading a field gives the message back, whatever it is and whatever follows but a quote. */
  lemma FieldReadsBack(message: string, rest: string)
    requires NoQuoteFirst(rest)
    ensures ReadField(Quoted(message) + rest) == Some((message, rest))
  {
    var s := Quoted(message) + rest;
    assert s[1..] == Doubled(message) + ("\"" + rest);
    DoubledReadsBack(message, rest);
  }

  /** A record's message reads back whole up to 32000 characters, and else cut there and marked. */
  lemma MessageReadsBack(message: string, rest: string)
    requires NoQuoteFirst(rest)
    ensures ReadField(Quoted(Truncated(message)) + rest) ==
            Some((if |message| <= 32000 then message else message[..32000] + "...", rest))
  {
    FieldReadsBack(Truncated(message), rest);
  }

  lemma DoubledFirst(c: char, read: string, rest: string)
    ensures var first := if c == '"' then "\"\"" else [c];
            Doubled([c] + read) + ("\"" + rest) == first + (Doubled(read) + ("\"" + rest))
  {
    var text, first := [c] + read, if c == '"' then "\"\"" else [c];
    assert text[0] == c && text[1..] == read;
    assert Doubled(text) == first + Doubled(read);
    Reassociate(first, Doubled(read), "\"" + rest);
  }

  lemma Reassociate(a: string, b: string, c: string)
    ensures (a + b) + c == a + (b + c)
  {
  }

  lemma {:induction false} ReadIsDoubled(s: string)
    requires ReadQuoted(s).Some?
    ensures var read := ReadQuoted(s).value; s == Doubled(read.0) + ("\"" + read.1) && NoQuoteFirst(read.1)
    decreases |s|
  {
    if s[0] != '"' {
      ReadIsDoubled(s[1..]);
      var read := ReadQuoted(s[1..]).value;
      DoubledFirst(s[0], read.0, read.1);
      assert s == [s[0]] + s[1..];
    } else if |s| > 1 && s[1] == '"' {
      ReadIsDoubled(s[2..]);
      var read := ReadQuoted(s[2..]).value;
      DoubledFirst('"', read.0, read.1);
      assert s == "\"\"" + s[2..];
    } else {
      assert s == "\"" + s[1..];
    }
  }

  /** The quoted form is the only text that reads as a message. */
  lemma OnlyQuotedReads(s: string, message: string, rest: string)
    ensures ReadField(s) == Some((message, rest)) <==> s == Quoted(message) + rest && NoQuoteFirst(rest)
  {
    if ReadField(s) == Some((message, rest)) {
      ReadIsDoubled(s[1..]);
      assert s == "\"" + s[1..];
      assert s == Quoted(message) + rest;
    } else if s == Quoted(message) + rest && NoQuoteFirst(rest) {
      FieldReadsBack(message, rest);
    }
  }
}
