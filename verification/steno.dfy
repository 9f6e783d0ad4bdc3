/** `StenoChapter.serial_number`: the part of a chapter serial after its first `/`. */
module Steno {
  import opened Wrappers
  import opened PyStr

  /** `serial.split('/', 1)[1]`; `None` stands for the `IndexError` raised
      when the serial holds no `/`. */
  function SerialNumber(serial: string): (r: Option<string>)
    ensures r.None? <==> '/' !in serial
    ensures r.Some? ==> exists i | 0 <= i < |serial| :: serial[i] == '/' && '/' !in serial[..i] && r.value == serial[i + 1..]
  {
    match IndexOf(serial, '/')
    case None => None
    case Some(i) => Some(serial[i + 1..])
  }

  /** The number of a serial built as `prefix/number` with a slash-free prefix
      is that number, whatever slashes the number itself holds. */
  lemma SerialNumberOf(prefix: string, number: string)
    requires '/' !in prefix
    ensures SerialNumber(prefix + "/" + number) == Some(number)
  {
    var serial := prefix + "/" + number;
    var i := IndexOf(serial, '/').value;
    assert forall j | 0 <= j < |prefix| :: serial[j] == prefix[j];
    assert serial[|prefix|] == '/';
    assert i == |prefix|;
    assert serial[i + 1..] == number;
  }
}
