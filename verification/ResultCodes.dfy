/** The result codes of the library that the binding tells apart. */
module ResultCodes {
  const OK := 0
  const ERROR := 1
  const BUSY := 5
  const MISUSE := 21
  const RANGE := 25
  const ROW := 100
  const DONE := 101
}
