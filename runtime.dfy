/** The parts of the Python runtime and libraries that the comparator calls
    but that are not modelled here: Unicode whitespace, the `decimal` module,
    `float` conversion with `numpy.allclose`, and the `json` module. They are
    handed to the comparator as one record of functions, so every property
    proved about it holds whatever those functions do. */
module Runtime {

  datatype Option<+T> = None | Some(value: T)

  /** A raised Python exception, reduced to the text `str(e)` gives for it. */
  datatype Exception = Exception(text: string)

  /** The outcome of converting two decimal lists with `float` and comparing
      them with `numpy.allclose`: the verdict when both steps return,
      `Unavailable` when they raise `ValueError` (a decimal that has no float,
      such as a signalling NaN) or `ImportError` (numpy missing), and
      `Raised` for any other exception. */
  datatype Tolerance = AllClose(close: bool) | Unavailable | Raised(error: Exception)

  /** The outcome of `==` on two `Decimal` values: the answer, or the
      exception it raises (`InvalidOperation` when either side is a
      signalling NaN). */
  datatype Equality = Equal(same: bool) | Signalled(error: Exception)

  /** The foreign collaborators, over the type `D` of Python `Decimal` values
      and the type `J` of values `json.loads` returns.
      - `isSpace`: `str.isspace` on one character (used by `strip` and `split`);
      - `decimal`: the `Decimal(token)` constructor, `None` when it raises;
      - `decimalEq`: `==` on two `Decimal` values, which may raise;
      - `allClose`: float conversion then `numpy.allclose` on two decimal lists;
      - `jsonLoads`: `json.loads`, `None` when it raises `ValueError`;
      - `jsonEq`: Python's deep `==` on two parsed JSON values;
      - `jsonStr`: `str` of a parsed JSON value. */
  datatype Host<!D, !J> = Host(
    isSpace: char -> bool,
    decimal: string -> Option<D>,
    decimalEq: (D, D) -> Equality,
    allClose: (seq<D>, seq<D>) -> Tolerance,
    jsonLoads: string -> Option<J>,
    jsonEq: (J, J) -> bool,
    jsonStr: J -> string)
}
