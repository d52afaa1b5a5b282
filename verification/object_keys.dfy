/**
 * Object keys of uploads: the shape of the identifier `uuid.v4()` returns,
 * and how an object key `id + extension` gives back the id it was made from.
 */
module ObjectKeys {

  predicate IsLowerHex(c: char) {
    '0' <= c <= '9' || 'a' <= c <= 'f'
  }

  /**
   * The textual form of a version-4 UUID: 8-4-4-4-12 lower-case hex digits,
   * version digit `4`, variant digit one of `8`, `9`, `a`, `b`.
   */
  predicate IsUuidV4(s: string) {
    && |s| == 36
    && (forall i :: 0 <= i < |s| ==>
          if i == 8 || i == 13 || i == 18 || i == 23 then s[i] == '-' else IsLowerHex(s[i]))
    && s[14] == '4'
    && s[19] in "89ab"
  }

  lemma UuidHasNoDot(s: string)
    requires IsUuidV4(s)
    ensures '.' !in s
  {
  }

  /** The part of an object key before its first `.`: the id it was made from. */
  function IdPart(key: string): (id: string)
    ensures '.' !in id
    ensures |id| <= |key| && id == key[..|id|]
  {
    if key == [] || key[0] == '.' then [] else [key[0]] + IdPart(key[1..])
  }

  /**
   * An object key `id + ext` gives back its id when the id holds no `.` and
   * the extension is empty or starts with one.
   */
  lemma {:induction false} IdPartOfObjectKey(id: string, ext: string)
    requires '.' !in id
    requires ext == [] || ext[0] == '.'
    ensures IdPart(id + ext) == id
  {
    if id != [] {
      assert (id + ext)[0] == id[0];
      assert (id + ext)[1..] == id[1..] + ext;
      IdPartOfObjectKey(id[1..], ext);
    }
  }

  /** Hence two different ids never share an object key, whatever the original names were. */
  lemma ObjectKeyDeterminesId(a: string, ea: string, b: string, eb: string)
    requires '.' !in a && '.' !in b
    requires ea == [] || ea[0] == '.'
    requires eb == [] || eb[0] == '.'
    requires a + ea == b + eb
    ensures a == b && ea == eb
  {
    IdPartOfObjectKey(a, ea);
    IdPartOfObjectKey(b, eb);
    assert ea == (a + ea)[|a|..] && eb == (b + eb)[|b|..];
  }
}
