/** Random strings drawn with `secrets.choice`. The random source is a
    parameter: `draws(i)` is the index `secrets.choice` picks for the i-th
    character. Only the length and the alphabet of the result are modelled,
    never the distribution. */
module Secrets {
  import Text

  /** `''.join(choice(alphabet) for _ in range(length))` */
  function Choose(alphabet: string, draws: nat -> nat, length: nat): (s: string)
    requires alphabet != []
    ensures |s| == length
    ensures forall i | 0 <= i < |s| :: s[i] in alphabet
  {
    if length == 0 then []
    else Choose(alphabet, draws, length - 1) + [alphabet[draws(length - 1) % |alphabet|]]
  }

  /** Length of an account salt. */
  const SaltLength: nat := 16

  /** The alphabet of account salts: `ascii_letters + digits`. */
  const SaltAlphabet: string := Text.AsciiLetters + Text.Digits

  /** `ProfileFactory.__make_salt()`: 16 letters or digits. */
  function MakeSalt(draws: nat -> nat): (salt: string)
    ensures |salt| == 16
    ensures forall i | 0 <= i < |salt| :: salt[i] in Text.AsciiLetters || salt[i] in Text.Digits
  {
    Choose(SaltAlphabet, draws, SaltLength)
  }

  /** Length of a generated entry password. */
  const GeneratedLength: nat := 30

  /** The random password the command-line wizard offers: 30 characters of
      `string.printable`. */
  function GeneratePassword(draws: nat -> nat): (password: string)
    ensures |password| == 30
    ensures forall i | 0 <= i < |password| :: password[i] in Text.Printable
  {
    Choose(Text.Printable, draws, GeneratedLength)
  }
}
