/**
 * The one line that makes a log slot readable: how the device prints it and how the host reads it back.
 */
module LogHeader {
  import opened Common

  const MAGIC := "DANDELION-LOG1"

  // ---------------------------------------------------------------- decimal numbers

  function Digit(d: nat): char
    requires d < 10
  {
    ('0' as int + d) as char
  }

  /** `%d` of a number that is not negative. */
  function Decimal(n: nat): string {
    if n < 10 then [Digit(n)] else Decimal(n / 10) + [Digit(n % 10)]
  }

  predicate IsDigit(c: char) {
    '0' <= c <= '9'
  }

  /** A shell number: at least one digit and nothing else. */
  function Number(s: string): Option<nat> {
    if s == "" || !IsDigit(s[|s| - 1]) then None
    else
      var last := s[|s| - 1] as int - '0' as int;
      if |s| == 1 then Some(last)
      else
        match Number(s[..|s| - 1])
        case None => None
        case Some(n) => Some(10 * n + last)
  }

  lemma {:induction false} DecimalReadsBack(n: nat)
    ensures Number(Decimal(n)) == Some(n)
    ensures Decimal(n) != "" && forall c :: c in Decimal(n) ==> IsDigit(c)
  {
    if n >= 10 {
      DecimalReadsBack(n / 10);
      var s := Decimal(n);
      assert s[..|s| - 1] == Decimal(n / 10);
    }
  }

  // ---------------------------------------------------------------- printing and reading the line

  function Line(number: nat, uptime: string, bytes: nat): string {
    MAGIC + " seq=" + Decimal(number) + " uptime=" + uptime + " bytes=" + Decimal(bytes)
  }

  /** Appending a digit multiplies by ten and adds it. */
  lemma DecimalIsBaseTen(m: nat, d: nat)
    requires d < 10
    ensures Decimal(10 * m + d) == (if m == 0 then "" else Decimal(m)) + ["0123456789"[d]]
  {
    assert (10 * m + d) / 10 == m && (10 * m + d) % 10 == d;
  }

  /** A field value that keeps the line one line of separate words. */
  predicate Word(s: string) {
    forall c :: c in s ==> c != ' ' && c != '\n' && c != '\0'
  }

  /** `tr -d '\0' | head -n 1` */
  function FirstLine(block: string): string {
    if block == "" || block[0] == '\n' then ""
    else if block[0] == '\0' then FirstLine(block[1..])
    else [block[0]] + FirstLine(block[1..])
  }

  /** `tr ' ' '\n'` */
  function Words(s: string): (r: seq<string>)
    ensures r != []
  {
    if s == "" then [""]
    else if s[0] == ' ' then [""] + Words(s[1..])
    else var rest := Words(s[1..]); [[s[0]] + rest[0]] + rest[1..]
  }

  /** `sed -n "s/^key=//p" | head -n 1`, empty when no word carries the key. */
  function FirstValue(words: seq<string>, key: string): string {
    if words == [] then ""
    else if key + "=" <= words[0] then words[0][|key| + 1..]
    else FirstValue(words[1..], key)
  }

  function Field(header: string, key: string): string {
    FirstValue(Words(header), key)
  }

  lemma {:induction false} FirstLineStops(line: string, rest: string)
    requires OneLine(line)
    ensures FirstLine(line + "\n" + rest) == line
  {
    if line != "" {
      var s := line + "\n" + rest;
      assert s[0] == line[0] && line[0] in line;
      assert s[1..] == line[1..] + "\n" + rest;
      assert forall c :: c in line[1..] ==> c in line;
      FirstLineStops(line[1..], rest);
    } else {
      assert (line + "\n" + rest)[0] == '\n';
    }
  }

  lemma {:induction false} ZerosHoldNoLine(block: string)
    requires forall c :: c in block ==> c == '\0'
    ensures FirstLine(block) == ""
  {
    if block != "" {
      assert block[0] in block;
      assert forall c :: c in block[1..] ==> c in block;
      ZerosHoldNoLine(block[1..]);
    }
  }

  lemma {:induction false} WordsSplit(word: string, rest: string)
    requires ' ' !in word
    ensures Words(word + " " + rest) == [word] + Words(rest)
  {
    var s := word + " " + rest;
    if word == "" {
      assert s[0] == ' ' && s[1..] == rest;
    } else {
      assert s[0] == word[0] && s[1..] == word[1..] + " " + rest;
      assert word[0] in word && forall c :: c in word[1..] ==> c in word;
      WordsSplit(word[1..], rest);
      assert [word[0]] + word[1..] == word;
      assert [word] + Words(rest) == [[s[0]] + word[1..]] + ([word[1..]] + Words(rest))[1..];
    }
  }

  lemma {:induction false} OneWord(word: string)
    requires ' ' !in word
    ensures Words(word) == [word]
  {
    if word != "" {
      assert word[0] in word && forall c :: c in word[1..] ==> c in word;
      OneWord(word[1..]);
      assert [word[0]] + word[1..] == word;
    }
  }

  lemma LineWords(n: nat, uptime: string, bytes: nat)
    requires Word(uptime)
    ensures Words(Line(n, uptime, bytes)) == ["DANDELION-LOG1", "seq=" + Decimal(n), "uptime=" + uptime, "bytes=" + Decimal(bytes)]
  {
    var w1, w2, w3 := "seq=" + Decimal(n), "uptime=" + uptime, "bytes=" + Decimal(bytes);
    assert ' ' !in w1 && ' ' !in w2 && ' ' !in w3 by {
      DecimalReadsBack(n);
      DecimalReadsBack(bytes);
    }
    assert Line(n, uptime, bytes) == MAGIC + " " + (w1 + " " + (w2 + " " + w3)) by {
      LineParts(MAGIC, "seq=", Decimal(n), "uptime=", uptime, "bytes=", Decimal(bytes));
    }
    FourWords(MAGIC, w1, w2, w3);
  }

  lemma LineParts(m: string, k1: string, v1: string, k2: string, v2: string, k3: string, v3: string)
    ensures m + (" " + k1) + v1 + (" " + k2) + v2 + (" " + k3) + v3 == m + " " + ((k1 + v1) + " " + ((k2 + v2) + " " + (k3 + v3)))
  {
  }

  lemma FourWords(w0: string, w1: string, w2: string, w3: string)
    requires ' ' !in w0 && ' ' !in w1 && ' ' !in w2 && ' ' !in w3
    ensures Words(w0 + " " + (w1 + " " + (w2 + " " + w3))) == [w0, w1, w2, w3]
  {
    WordsSplit(w0, w1 + " " + (w2 + " " + w3));
    WordsSplit(w1, w2 + " " + w3);
    WordsSplit(w2, w3);
    OneWord(w3);
  }

  /** Both fields come back from the printed line, whatever the uptime, and read as the numbers they were. */
  lemma FieldsReadBack(n: nat, uptime: string, bytes: nat)
    requires Word(uptime)
    ensures MAGIC + " " <= Line(n, uptime, bytes)
    ensures Field(Line(n, uptime, bytes), "seq") == Decimal(n) && Number(Decimal(n)) == Some(n)
    ensures Field(Line(n, uptime, bytes), "bytes") == Decimal(bytes) && Number(Decimal(bytes)) == Some(bytes)
  {
    LineWords(n, uptime, bytes);
    DecimalReadsBack(n);
    DecimalReadsBack(bytes);
    var w1, w2, w3 := "seq=" + Decimal(n), "uptime=" + uptime, "bytes=" + Decimal(bytes);
    var ws := [MAGIC, w1, w2, w3];
    assert MAGIC[0] == 'D' && w1[0] == 's' && w2[0] == 'u' && w3[0] == 'b';
    assert ws[1..] == [w1, w2, w3] && ws[1..][1..] == [w2, w3] && ws[1..][1..][1..] == [w3];
    assert w1[4..] == Decimal(n) && w3[6..] == Decimal(bytes);
    assert FirstValue(ws, "seq") == Decimal(n);
    assert FirstValue([w3], "bytes") == Decimal(bytes);
    assert FirstValue([w2, w3], "bytes") == Decimal(bytes);
    assert FirstValue([w1, w2, w3], "bytes") == Decimal(bytes);
  }

  ghost predicate OneLine(line: string) {
    forall c :: c in line ==> c != '\n' && c != '\0'
  }

  lemma LineIsOneLine(n: nat, uptime: string, bytes: nat)
    requires Word(uptime)
    ensures OneLine(Line(n, uptime, bytes))
  {
    DecimalReadsBack(n);
    DecimalReadsBack(bytes);
    hide Decimal, Number;
  }
}
