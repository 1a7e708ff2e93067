/**
  The edit command of app.py:46-48: a text frame `"<index_str> <color>"`
  is split into two fields, the index is `int(index_str.replace('p', '')) - 1`,
  and the colour is written at that index with Python list indexing.
 */
module Command {
  import opened Wrappers
  import opened Text
  import opened PyInt

  /** What reading a frame yields: the 0-based index (before list
      indexing), the index field as received and the colour; or the
      `ValueError` that `index_str, color = data.split()` or `int(...)` raises. */
  datatype ParseResult =
    | Command(index: int, token: string, color: string)
    | WrongFieldCount(count: nat)
    | BadInteger(text: string)

  /** `index_str, color = data.split()` followed by
      `index = int(index_str.replace('p', '')) - 1`. */
  function ParseCommand(data: string): (r: ParseResult)
    ensures r.WrongFieldCount? <==> |Split(data)| != 2
    ensures r.WrongFieldCount? ==> r.count == |Split(data)|
    ensures r.BadInteger? <==>
              |Split(data)| == 2 && ParseInt(Without(Split(data)[0], 'p')).None?
    ensures r.BadInteger? ==> r.text == Without(Split(data)[0], 'p')
    ensures r.Command? ==>
              Split(data) == [r.token, r.color]
              && ParseInt(Without(r.token, 'p')) == Some(r.index + 1)
  {
    var fields := Split(data);
    if |fields| != 2 then WrongFieldCount(|fields|)
    else
      var digits := Without(fields[0], 'p');
      match ParseInt(digits)
      case None => BadInteger(digits)
      case Some(k) => Command(k - 1, fields[0], fields[1])
  }

  /** A frame made of two fields with any well-formed whitespace around and
      between them reads back as those two fields, with the index given by
      the first field's digits. */
  lemma ParseFrame(seps: seq<string>, token: string, color: string, k: int)
    requires Separators(seps, 2) && IsField(token) && IsField(color)
    requires ParseInt(Without(token, 'p')) == Some(k)
    ensures ParseCommand(Interleave(seps, [token, color])) == Command(k - 1, token, color)
  {
    SplitInterleave(seps, [token, color]);
  }

  /** A frame with any other number of fields fails to unpack. */
  lemma ParseFrameFieldCount(seps: seq<string>, fields: seq<string>)
    requires Separators(seps, |fields|) && AllFields(fields) && |fields| != 2
    ensures ParseCommand(Interleave(seps, fields)) == WrongFieldCount(|fields|)
  {
    SplitInterleave(seps, fields);
  }

  /** The index field a client sends for cell `k` (1-based) is a field, and
      deleting its `'p'` leaves the decimal form of `k`. */
  lemma ClientToken(k: int)
    ensures IsField("p" + Show(k))
    ensures Without("p" + Show(k), 'p') == Show(k)
  {
    ShowChars(k);
    WithoutConcat("p", Show(k), 'p');
    assert 'p' !in Show(k);
    assert Without("p", 'p') == [];
  }

  /** Two fields joined by one space are laid out with the separators
      `"", " ", ""`. */
  lemma SpaceJoined(token: string, color: string)
    ensures Separators([[], " ", []], 2)
    ensures Interleave([[], " ", []], [token, color]) == token + " " + color
  {
    var seps: seq<string> := [[], " ", []];
    assert Interleave(seps[2..], []) == [];
    assert Interleave(seps[1..], [color]) == " " + color + [];
    assert Interleave(seps, [token, color]) == [] + token + (" " + color + []);
  }

  /** The frame a client sends for cell `k` (1-based), `"p<k> <color>"`,
      reads back as index `k - 1` with the token `"p<k>"`, unless `k` has
      more digits than `int()` converts. */
  lemma ParseClientFrame(k: int, color: string)
    requires IsField(color)
    ensures ParseCommand("p" + Show(k) + " " + color)
            == if WithinDigitLimit(k) then Command(k - 1, "p" + Show(k), color) else BadInteger(Show(k))
  {
    var token := "p" + Show(k);
    ClientToken(k);
    ParseShow(k);
    SpaceJoined(token, color);
    SplitInterleave([[], " ", []], [token, color]);
  }

  /** Python list indexing `image[i]` on a list of length `n`: negative
      indices down to `-n` count from the end, anything else raises
      `IndexError` (`None`). */
  function ListIndex(i: int, n: nat): (r: Option<nat>)
    ensures r.Some? <==> -(n as int) <= i < n
    ensures r.Some? ==> r.value < n && (r.value - i) % n == 0
  {
    if 0 <= i < n then Some(i)
    else if -(n as int) <= i < 0 then Some(i + n)
    else None
  }

  /** A write the edit performs: the cell, its new colour, and the text to
      broadcast afterwards. */
  datatype Edit = Edit(cell: nat, color: string, message: string)

  /** The exceptions the edit step raises, none of which app.py catches. */
  datatype EditError =
    | UnpackError(count: nat)  // ValueError from `index_str, color = data.split()`
    | IntError(text: string)   // ValueError from `int(...)`
    | IndexError(index: int)   // IndexError from `image[index] = color`

  /** What app.py:46-49 does with one frame on a canvas of `n` cells. */
  function Decide(data: string, n: nat): (r: Result<Edit, EditError>)
    ensures r.Ok? ==> r.value.cell < n
  {
    match ParseCommand(data)
    case WrongFieldCount(count) => Err(UnpackError(count))
    case BadInteger(text) => Err(IntError(text))
    case Command(index, token, color) =>
      match ListIndex(index, n)
      case None => Err(IndexError(index))
      case Some(cell) => Ok(Edit(cell, color, token + " " + color))
  }

  /** A frame that does not read as a command is rejected with the same
      error, before any write. */
  lemma DecideRejectsMalformed(data: string, n: nat)
    requires !ParseCommand(data).Command?
    ensures Decide(data, n).Err?
    ensures ParseCommand(data).WrongFieldCount? ==>
              Decide(data, n) == Err(UnpackError(|Split(data)|))
    ensures ParseCommand(data).BadInteger? ==>
              Decide(data, n) == Err(IntError(Without(Split(data)[0], 'p')))
  {
  }

  /** A 1-based index field value `k` in `1..n` writes cell `k - 1`, and the
      broadcast text is the index field as received, a space, the colour. */
  lemma DecideOneBased(data: string, n: nat, token: string, color: string, k: int)
    requires Split(data) == [token, color]
    requires ParseInt(Without(token, 'p')) == Some(k) && 1 <= k <= n
    ensures Decide(data, n) == Ok(Edit(k - 1, color, token + " " + color))
  {
  }

  /** An index in `-n..-1` (index field value `k` in `1-n..0`, e.g. `"p0"`)
      wraps round to cell `k - 1 + n`. */
  lemma DecideWraps(data: string, n: nat, token: string, color: string, k: int)
    requires Split(data) == [token, color]
    requires ParseInt(Without(token, 'p')) == Some(k) && -(n as int) <= k - 1 < 0
    ensures Decide(data, n) == Ok(Edit(k - 1 + n, color, token + " " + color))
  {
  }

  /** An index `>= n` or `< -n` raises `IndexError`. */
  lemma DecideOutOfRange(data: string, n: nat, token: string, color: string, k: int)
    requires Split(data) == [token, color]
    requires ParseInt(Without(token, 'p')) == Some(k) && (k - 1 >= n || k - 1 < -(n as int))
    ensures Decide(data, n) == Err(IndexError(k - 1))
  {
  }

  /** `"p0 <color>"` writes the last cell. */
  lemma ZeroWritesLastCell(color: string, n: nat)
    requires IsField(color) && n > 0
    ensures Decide("p0 " + color, n) == Ok(Edit(n - 1, color, "p0 " + color))
  {
    assert Show(0) == "0";
    assert "p" + Show(0) + " " + color == "p0 " + color;
    ParseClientFrame(0, color);
  }

  /** The frame a client sends for cell `k` (1-based) on a list of `n`
      cells: written where Python list indexing puts `k - 1`, or
      `IndexError`; the broadcast text is the frame itself. A `k` with more
      digits than `int()` converts is a `ValueError` instead. */
  lemma DecideClientFrame(k: int, color: string, n: nat)
    requires IsField(color)
    ensures var data := "p" + Show(k) + " " + color;
            Decide(data, n)
            == if !WithinDigitLimit(k) then Err(IntError(Show(k)))
               else match ListIndex(k - 1, n)
                    case Some(cell) => Ok(Edit(cell, color, data))
                    case None => Err(IndexError(k - 1))
  {
    ParseClientFrame(k, color);
  }

  /** Worked frame: `"p5 red"` writes cell 4. */
  lemma ExampleFifth()
    ensures Decide("p5 red", 100) == Ok(Edit(4, "red", "p5 red"))
  {
    assert Show(5) == "5";
    assert "p" + Show(5) + " " + "red" == "p5 red";
    DecideClientFrame(5, "red", 100);
  }

  /** Worked frame: `"p100 red"` writes the last cell. */
  lemma ExampleLast()
    ensures Decide("p100 red", 100) == Ok(Edit(99, "red", "p100 red"))
  {
    assert Show(100) == "100";
    assert "p" + Show(100) + " " + "red" == "p100 red";
    DecideClientFrame(100, "red", 100);
  }

  /** Worked frame: `"p101 red"` raises `IndexError` for index 100. */
  lemma ExamplePastEnd()
    ensures Decide("p101 red", 100) == Err(IndexError(100))
  {
    assert Show(101) == "101";
    assert "p" + Show(101) + " " + "red" == "p101 red";
    DecideClientFrame(101, "red", 100);
  }

  /** Worked frame: `"p-99 red"` is index -100, which wraps round to cell 0. */
  lemma ExampleNegative()
    ensures Decide("p-99 red", 100) == Ok(Edit(0, "red", "p-99 red"))
  {
    assert Show(-99) == "-99";
    assert "p" + Show(-99) + " " + "red" == "p-99 red";
    DecideClientFrame(-99, "red", 100);
  }

  /** Worked frame: a lone `"p5"` fails to unpack into two fields. */
  lemma ExampleOneField()
    ensures Decide("p5", 100) == Err(UnpackError(1))
  {
    var seps: seq<string> := [[], []];
    assert Interleave(seps, ["p5"]) == "p5" by {
      assert Interleave(seps[1..], []) == [];
    }
    ParseFrameFieldCount(seps, ["p5"]);
  }

  /** Worked frame: a third field (`"p5 red u1"`) fails to unpack too. */
  lemma ExampleThreeFields()
    ensures Decide("p5 red u1", 100) == Err(UnpackError(3))
  {
    var seps: seq<string> := [[], " ", " ", []];
    assert Interleave(seps, ["p5", "red", "u1"]) == "p5 red u1" by {
      assert Interleave(seps[3..], []) == [];
      assert Interleave(seps[2..], ["u1"]) == " u1";
      assert Interleave(seps[1..], ["red", "u1"]) == " red u1";
    }
    ParseFrameFieldCount(seps, ["p5", "red", "u1"]);
  }

  /** Worked frame: `"px red"` leaves `"x"` for `int()`, which rejects it. */
  lemma ExampleNotInteger()
    ensures Decide("px red", 100) == Err(IntError("x"))
  {
    SpaceJoined("px", "red");
    SplitInterleave([[], " ", []], ["px", "red"]);
    assert Without("px", 'p') == "x";
    assert !IsNumeral("x");
  }

  /** Worked frame: `int()` accepts an underscore between digits, so
      `"p1_0 red"` writes cell 9. */
  lemma ExampleUnderscore()
    ensures Decide("p1_0 red", 100) == Ok(Edit(9, "red", "p1_0 red"))
  {
    assert Without("p1_0", 'p') == "1_0";
    ExampleUnderscoreInt();
    assert IsField("p1_0") && IsField("red");
    SpaceJoined("p1_0", "red");
    assert "p1_0" + " " + "red" == "p1_0 red";
    ParseFrame([[], " ", []], "p1_0", "red", 10);
  }

  /** A two-field frame whose index field, without its `'p'`, is not an
      integer `int()` converts raises that `ValueError`. */
  lemma DecideNotInteger(token: string, color: string, n: nat)
    requires IsField(token) && IsField(color)
    requires ParseInt(Without(token, 'p')).None?
    ensures Decide(token + " " + color, n) == Err(IntError(Without(token, 'p')))
  {
    SpaceJoined(token, color);
    SplitInterleave([[], " ", []], [token, color]);
  }

  /** An index field of more than `MaxStrDigits` digits raises
      `ValueError` in `int()`, whatever the canvas size: the digit limit is
      checked before any list indexing. */
  lemma DecideTooManyDigits(digits: string, color: string, n: nat)
    requires AllDigits(digits) && |digits| > MaxStrDigits && IsField(color)
    ensures Decide("p" + digits + " " + color, n) == Err(IntError(digits))
  {
    var token := "p" + digits;
    assert Without(token, 'p') == digits by {
      WithoutConcat("p", digits, 'p');
      assert 'p' !in digits;
      assert Without("p", 'p') == [];
    }
    assert Without(digits, '_') == digits by {
      assert '_' !in digits;
    }
    assert !Convertible(digits);
    assert IsField(token);
    DecideNotInteger(token, color, n);
  }

  /** Worked frame: `"p"`, 4301 ones and `" red"` is refused by `int()`. */
  lemma ExampleTooManyDigitsFrame()
    ensures var digits := seq(MaxStrDigits + 1, _ => '1');
            Decide("p" + digits + " red", 100) == Err(IntError(digits))
  {
    var digits := seq(MaxStrDigits + 1, _ => '1');
    DecideTooManyDigits(digits, "red", 100);
    assert "p" + digits + " " + "red" == "p" + digits + " red";
  }
}
