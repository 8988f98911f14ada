/**
 * `is_printable`: a character is printable when Python's `str.isprintable()`
 * holds of it and its Unicode general category is not one of the "C" group
 * (Cc, Cf, Cs, Co, Cn).
 *
 * Both queries go to Python's Unicode database, which is not part of this
 * model: it is a parameter. Only its answers on ASCII matter to the cleaner,
 * and those are stated as the assumption `StandardOnAscii`.
 */
module Printability {

  /** The two answers of Python's Unicode database the predicate uses. */
  datatype UnicodeDb = UnicodeDb(isPrintable: char -> bool, category: char -> string)

  predicate IsPrintable(db: UnicodeDb, c: char) {
    db.isPrintable(c) && !("C" <= db.category(c))
  }

  /**
   * What the Unicode standard (and so Python) says of ASCII: 0-31 and 127 are
   * category Cc and not printable; 32-126 are printable and outside the C group.
   */
  ghost predicate StandardOnAscii(db: UnicodeDb) {
    (forall c: char :: c as int <= 127 ==> (db.isPrintable(c) <==> 32 <= c as int <= 126)) &&
    (forall c: char :: c as int <= 127 ==> ("C" <= db.category(c) <==> (c as int < 32 || c as int == 127)))
  }

  /** Under the ASCII assumption, an ASCII character is printable exactly when it lies in 32..126. */
  lemma PrintableAscii(db: UnicodeDb, c: char)
    requires StandardOnAscii(db) && c as int <= 127
    ensures IsPrintable(db, c) <==> 32 <= c as int <= 126
  {
  }
}
