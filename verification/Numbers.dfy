/** The smaller and the larger of two numbers. */
module Numbers {

  function Min(x: nat, y: nat): nat { if x <= y then x else y }

  function Max(x: nat, y: nat): nat { if x >= y then x else y }
}
