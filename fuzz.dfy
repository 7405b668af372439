/** `fuzz.ratio` from fuzzywuzzy: a whole-number edit-distance score
    between two strings, from 0 (nothing in common) to 100 (identical).
    The score itself is computed by the library and enters the model as a
    function parameter of type `Ratio`. */
module Fuzz {
  type Percent = x: int | 0 <= x <= 100

  type Ratio = (string, string) -> Percent
}
