/**
 * The text parsing the server does on message texts (ChatServerImpl.java): the
 * sender name that the ban filter compares, the target of a BAN or UNBAN, and
 * the administrative drop command. Each is a Java expression that may throw.
 */
module ServerParse {
  import opened JavaLang

  /** Java `o.trim()` on the outcome of an expression: a thrown exception propagates. */
  function TrimOutcome(o: Outcome<string>): (r: Outcome<string>)
    ensures r.Throw? <==> o.Throw?
    ensures r.Throw? ==> r == o
    ensures r.Return? ==> r.value == Trim(o.value)
  {
    match o
    case Return(p) => Return(Trim(p))
    case Throw(e) => Throw(e)
  }

  /**
   * The sender name that broadcast reads off a message text: the trimmed text
   * before the first ':', or the whole trimmed text when there is no ':'. It does
   * not exist for a non-empty text made of colons alone.
   */
  function SenderName(text: string): (r: Outcome<string>)
    ensures r.Throw? <==> |text| > 0 && OnlyOf(text, ':')
    ensures ':' !in text ==> r == Return(Trim(text))
  {
    if |text| > 0 && OnlyOf(text, ':') then Throw(ArrayIndexOutOfBoundsException)
    else Return(Trim(BeforeFirst(text, ':')))
  }

  /** SenderName is what `text.split(":")[0].trim()` evaluates to, exception included. */
  lemma SenderNameIsSplit(text: string)
    ensures SenderName(text) == TrimOutcome(At(Split(text, ':'), 0))
  {
    SplitFirst(text, ':');
  }

  /**
   * The target of a BAN or UNBAN text: the trimmed text between the first and the
   * second ':'. It does not exist when there is no ':' or only colons follow the
   * first.
   */
  function BanTarget(text: string): (r: Outcome<string>)
    ensures r.Return? <==> ':' in text && !OnlyOf(AfterFirst(text, ':'), ':')
  {
    if ':' in text && !OnlyOf(AfterFirst(text, ':'), ':') then Return(Trim(BeforeFirst(AfterFirst(text, ':'), ':')))
    else Throw(ArrayIndexOutOfBoundsException)
  }

  /** BanTarget is what `text.split(":")[1].trim()` evaluates to, exception included. */
  lemma BanTargetIsSplit(text: string)
    ensures BanTarget(text) == TrimOutcome(At(Split(text, ':'), 1))
  {
    SplitSecond(text, ':');
  }

  /**
   * The drop test of a MESSAGE: `datos = text.split(" ")`; when `datos` has other
   * than one element and `datos[1]` equals "drop" ignoring case, the command
   * names `datos[2]`. Some(name) is a drop command, None ordinary chat.
   */
  function DropCommand(text: string): (r: Outcome<Option<string>>)
    ensures ' ' !in text ==> r == Return(None)
    ensures |text| > 0 && OnlyOf(text, ' ') ==> r == Throw(ArrayIndexOutOfBoundsException)
    ensures r.Return? && r.value.Some? ==> ' ' !in r.value.value
    ensures r.Throw? ==> r.exception == ArrayIndexOutOfBoundsException
  {
    SplitFirst(text, ' ');
    var datos := Split(text, ' ');
    assert forall k :: 0 <= k < |datos| ==> ' ' !in datos[k] by {
      if ' ' in text {
        assert forall k :: 0 <= k < |datos| ==> datos[k] == Pieces(text, ' ')[k];
      }
    }
    if |datos| == 1 then Return(None)
    else
      match At(datos, 1)
      case Throw(e) => Throw(e)
      case Return(second) =>
        if EqualsIgnoreCase(second, "drop") then
          match At(datos, 2)
          case Return(name) => Return(Some(name))
          case Throw(e) => Throw(e)
        else Return(None)
  }

  /**
   * A space-separated text whose second word is `kw` and whose third and last
   * word is `name` is a drop command for `name` exactly when `kw` is "drop"
   * ignoring case.
   */
  lemma DropCommandWords(first: string, kw: string, name: string)
    requires ' ' !in first && ' ' !in kw && ' ' !in name
    requires kw != "" && name != ""
    ensures DropCommand(first + " " + kw + " " + name)
         == Return(if EqualsIgnoreCase(kw, "drop") then Some(name) else None)
  {
    var text := first + " " + kw + " " + name;
    assert text == first + [' '] + (kw + [' '] + name);
    PiecesAt(first, ' ', kw + [' '] + name);
    PiecesAt(kw, ' ', name);
    PiecesWithoutSep(name, ' ');
    assert Pieces(text, ' ') == [first, kw, name];
    assert text[|first|] == ' ';
    assert Split(text, ' ') == [first, kw, name];
  }

  /**
   * A "drop" with nothing after it has no third word: evaluating `datos[2]`
   * throws, and the command never reaches `drop`.
   */
  lemma DropWithoutTargetThrows(first: string, kw: string)
    requires ' ' !in first && ' ' !in kw && kw != ""
    requires EqualsIgnoreCase(kw, "drop")
    ensures DropCommand(first + " " + kw) == Throw(ArrayIndexOutOfBoundsException)
  {
    var text := first + " " + kw;
    assert text == first + [' '] + kw;
    PiecesAt(first, ' ', kw);
    PiecesWithoutSep(kw, ' ');
    assert text[|first|] == ' ';
    assert Split(text, ' ') == [first, kw];
  }
}
