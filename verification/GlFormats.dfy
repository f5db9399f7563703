/** Bytes per pixel of the texture formats. */
module GlFormats {
  import opened HostTypes

  function FormatComponents(format: uint32): nat {
    if format == 0x1906 || format == 0x1909 then 1
    else if format == 0x190A then 2
    else if format == 0x1907 then 3
    else 4
  }

  function PixelSize(format: uint32, pixelType: uint32): nat {
    if pixelType == 0x8363 || pixelType == 0x8033 || pixelType == 0x8034 then 2 else FormatComponents(format)
  }
}
