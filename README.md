# DIP-Toolkit core in Dafny

DIP-Toolkit is a teaching application for digital image processing. A
two-slot window loads images, applies the operations of seven practicals to
the active slot, keeps an undo history, and combines the two slots in
arithmetic and logic operations. This project models the hand-written
pixel logic of the practicals and the workspace state machine, and proves
what each operation promises.

Images are `Raster.Image`, either `Gray(plane)` or `Color(pixels)`, with
samples in 0..255 (`Raster.Byte`). Library primitives get small explicit
definitions:
- binary thresholding is `x > t ? 255 : 0`;
- the range test is inclusive;
- saturating add and subtract clamp to 0..255;
- a lookup table is indexing;
- erosion and dilation take the minimum and maximum over the in-image k×k
  window, anchored at the centre as OpenCV does;
- `filter2D` is correlation with reflect-101 borders;
- the mode filter's windows use SciPy's `reflect` border.

Some inputs are parameters rather than definitions:
- the RGB-to-gray weights (`luma`);
- the HSV path that the colour branch of the LUT routine takes (`vLut`);
- the Gaussian exponential (`expNeg`);
- what a file dialog or a confirmation dialog returns.

Reals are exact rationals with floor where the source truncates.

Modules:
- `Raster`: the shared types, grid helpers and arithmetic lemmas.
- `Channels`: `src/practica1.py`.
- `Arith`: `src/practica3.py`.
- `Filters`: `src/practica4.py`.
- `Segmentation`: `src/practica5.py`.
- `Morphology`: `src/practica6.py`.
- `Frequency`: `src/practica7.py`.
- `Workspace`: the slot and history logic of `PDIApp` in `interfaz.py`, as class `App`.

## Model

| member | source | states |
|---|---|---|
| Channels.ConvertirAGrises | src/practica1.py:6-9 | a gray input comes back unchanged; a colour input becomes a gray plane of the same shape holding luma of each pixel |
| Channels.ConvertirAGrisesIdempotent | src/practica1.py:6-9 | converting twice equals converting once |
| Channels.BinarizarManual | src/practica1.py:11-14 | a gray plane of the input's shape that is 255 exactly where gray > umbral and 0 exactly where gray <= umbral |
| Channels.BinarizarManualMonotone | src/practica1.py:11-14 | raising the threshold never increases the number of white pixels |
| Channels.ObtenerCanalesRgbVisual | src/practica1.py:28-38 | three images of the input's shape holding (r,0,0), (0,g,0) and (0,0,b) |
| Channels.RgbVisualsRecompose | src/practica1.py:28-38 | the three RGB views summed channel by channel give back the original pixel |
| Channels.InvertirCmy | src/practica1.py:66-67 | same shape, and every channel of a pixel plus its inverse is 255 (C = 255-R, M = 255-G, Y = 255-B) |
| Channels.InvertirCmyInvolution | src/practica1.py:66-67 | inverting twice gives back the image |
| Channels.ObtenerCanalesCmyVisual | src/practica1.py:59-81 | three images of the input's shape holding (0,C,C), (M,0,M) and (Y,Y,0) |
| Arith.SumarEscalar | src/practica3.py:6-10 | same geometry; every sample of every channel becomes clamp(x + valor) |
| Arith.SumarEscalarSaturates | src/practica3.py:6-10 | the result is x + valor when that fits, 255 when it overflows and 0 when it underflows; it never wraps |
| Arith.RestarEscalar | src/practica3.py:12-14 | same geometry; every sample becomes clamp(x - valor) |
| Arith.RestarEscalarSaturates | src/practica3.py:12-14 | the result is x - valor when that is not negative, 0 otherwise; it never wraps |
| Arith.SumarRestarRoundTrip | src/practica3.py:6-14 | adding then subtracting valor restores a sample that did not saturate |
| Arith.MultiplicarEscalar | src/practica3.py:16-20 | same geometry; every sample becomes floor(clamp(x * valor)) |
| Arith.MultiplicarEscalarBounds | src/practica3.py:16-20 | a factor in [0,1] never raises a sample, and factor 1 leaves it unchanged |
| Arith.PrepararImgSecundaria | src/practica3.py:24-27 | fails exactly when an operand is empty; otherwise resizes the secondary to the base's height and width by nearest neighbour, keeps its kind, and is the identity when the sizes already agree |
| Arith.SumaImagenes | src/practica3.py:29-31 | defined exactly when both operands are non-empty and of the same kind; then the base's geometry with saturating sums |
| Arith.RestaImagenes | src/practica3.py:33-35 | defined exactly when both operands are non-empty and of the same kind; then the base's geometry with saturating differences |
| Arith.RestaImagenesSelf | src/practica3.py:33-35 | an image minus itself is all zero |
| Arith.MulNorm | src/practica3.py:37-44 | the normalised product is floor(x*y/255): z*255 <= x*y < (z+1)*255 |
| Arith.MulNormBounds | src/practica3.py:37-44 | the normalised product is at most each factor, and 255 is its identity |
| Arith.MultiplicacionImagenes | src/practica3.py:37-44 | defined exactly when the operands are compatible; then every sample is floor(a*b/255) of a and the resized b |
| Arith.MultiplicacionImagenesBounded | src/practica3.py:37-44 | every result sample is at most both operand samples |
| Arith.MultiplicacionWhiteIdentity | src/practica3.py:37-44 | multiplying by an all-255 image returns the other operand |
| Arith.LogicaAnd | src/practica3.py:48-50 | defined exactly when the operands are compatible; then the samplewise bitwise AND |
| Arith.LogicaOr | src/practica3.py:52-54 | defined exactly when the operands are compatible; then the samplewise bitwise OR |
| Arith.LogicaXor | src/practica3.py:56-58 | defined exactly when the operands are compatible; then the samplewise bitwise XOR |
| Arith.LogicaAndWhiteMask | src/practica3.py:48-50 | AND with an all-255 mask returns the image |
| Arith.LogicaSelf | src/practica3.py:52-58 | XOR of an image with itself is all zero and OR with itself is the image |
| Arith.LogicaNot | src/practica3.py:60-61 | same geometry; every sample plus its negation is 255 |
| Arith.LogicaNotInvolution | src/practica3.py:60-61 | negating twice returns the image |
| Filters.KernelPromedioPesado | src/practica4.py:58-64 | size 5 selects the flat 5×5 kernel of 1/25; every other size selects 1-2-1/2-4-2/1-2-1 over 16 |
| Filters.KernelPromedioPesadoNormalised | src/practica4.py:58-64 | the weights of either kernel sum to 1 |
| Filters.FiltroMedianaSize | src/practica4.py:76-79 | the kernel size used is odd: an odd size is kept, an even one is raised by one |
| Filters.FiltroMaximo | src/practica4.py:81-84 | same geometry; every sample is the maximum over its k×k window |
| Filters.FiltroMinimo | src/practica4.py:86-89 | same geometry; every sample is the minimum over its k×k window |
| Filters.FiltroMinMaxBracket | src/practica4.py:81-89 | the minimum filter <= the pixel <= the maximum filter |
| Filters.GetMode | src/practica4.py:101-103 | the result occurs in the window, no value is more frequent, and every smaller value is strictly less frequent (ties go to the smallest) |
| Filters.GetModeMajority | src/practica4.py:101-103 | a value filling more than half of the window is its mode |
| Filters.ModeWindowHasCentre | src/practica4.py:91-107 | the reflected k×k window of a pixel contains the pixel |
| Filters.FiltroModa | src/practica4.py:91-107 | always a colour raster of the gray plane's shape with R = G = B = the mode of the pixel's window |
| Filters.KirschBalanced | src/practica4.py:162-169 | every compass kernel has centre 0, weights summing to 0, and a ring of three 5s starting at its direction with -3 elsewhere |
| Filters.KirschRotation | src/practica4.py:162-169 | kernel n+1 is kernel n with its outer ring rotated by one cell |
| Filters.FiltroKirsch | src/practica4.py:158-177 | a gray raster of the gray plane's shape, at least every saturated compass response, and equal to the largest of them or 0 |
| Filters.KirschFlat | src/practica4.py:158-177 | on a flat neighbourhood every compass response is 0 |
| Segmentation.ApplyLut | src/practica5.py:11-21 | on gray input, the same shape with out = lut[in]; colour input goes through the HSV path |
| Segmentation.ApplyLutMonotone | src/practica5.py:11-21 | a non-decreasing table keeps the order of any two gray pixels |
| Segmentation.ShiftLut | src/practica5.py:225-230 | the loop fills exactly the 256-entry table clamp(i + valor) |
| Segmentation.ShiftTableProperties | src/practica5.py:225-230 | the shift table is non-decreasing, and for valor >= 0 each entry is i + valor or 255 |
| Segmentation.DesplazarHistograma | src/practica5.py:225-230 | applies the shift table; on gray input that equals the scalar addition |
| Segmentation.StretchLut | src/practica5.py:239-243 | the loop fills exactly the 256-entry min-max stretch table |
| Segmentation.StretchTableProperties | src/practica5.py:239-243 | the stretch table is non-decreasing, 0 at and below min and 255 at and above max |
| Segmentation.GrayRange | src/practica5.py:232-238 | None exactly for an empty image; otherwise the minimum and maximum gray values, both attained |
| Segmentation.ExpansionHistograma | src/practica5.py:232-243 | unchanged when min == max, otherwise the stretch table applied |
| Segmentation.ExpansionGrayEnds | src/practica5.py:232-243 | after a stretch of a gray image the darkest pixel becomes 0 and the brightest 255 |
| Segmentation.ContractLut | src/practica5.py:245-254 | the loop fills exactly the 256-entry contraction table |
| Segmentation.ContractEntryExact | src/practica5.py:245-254 | each entry is floor(clip(min_out + (max_out - min_out)*i/255)) in exact arithmetic |
| Segmentation.ContractTableMonotone | src/practica5.py:245-254 | the table is non-decreasing when max_out >= min_out |
| Segmentation.ContractTableEnds | src/practica5.py:245-254 | entry 0 is min_out and entry 255 is max_out when they lie in 0..255 |
| Segmentation.ContractTableWithin | src/practica5.py:245-254 | every entry lies between min_out and max_out |
| Segmentation.ContractTableIdentity | src/practica5.py:245-254 | the range 0..255 gives the identity table |
| Segmentation.ContraccionHistograma | src/practica5.py:245-254 | applies the contraction table |
| Segmentation.SegMedia | src/practica5.py:30-34 | 255 exactly where the gray value exceeds the mean, 0 elsewhere |
| Segmentation.SegUmbralBanda | src/practica5.py:137-140 | 255 exactly where lower <= gray <= upper, 0 elsewhere |
| Segmentation.SegundoUmbral | src/practica5.py:118-134 | the second threshold exists exactly when some pixel lies above the first, and then lies in (thresh1, 255] |
| Segmentation.SegMultiumbral | src/practica5.py:110-135 | every output is 0, 127 or 255; 0 exactly at pixels <= thresh1; 255 exactly above the second threshold |
| Segmentation.ClassPartition | src/practica5.py:98-102 | the two Isodata classes split the pixels and their sum |
| Segmentation.MeanBounds | src/practica5.py:102-103 | the lower class mean lies in [0, t] and the upper one in [t+1, 255] |
| Segmentation.IsodataStepMonotone | src/practica5.py:102-104 | the midpoint of the class means never decreases as t grows |
| Segmentation.IsodataStepSplits | src/practica5.py:102-104 | the next threshold still leaves both classes non-empty |
| Segmentation.Isodata | src/practica5.py:96-105 | starts at 128 and always stops; without both classes at 128 it returns 128, otherwise a fixed point with both classes non-empty, and the first one in the direction of the first step: the least fixed point at or above 128 when the step from 128 goes up, the greatest at or below 128 when it goes down |
| Segmentation.IsodataResultUnique | src/practica5.py:96-105 | that description of where the loop ends is met by exactly one threshold, so the loop's result is determined by the samples |
| Segmentation.PassedUp | src/practica5.py:102-105 | an upward step from t to new_t passes over no fixed point |
| Segmentation.PassedDown | src/practica5.py:102-105 | a downward step from t to new_t passes over no fixed point |
| Segmentation.SegMinHistograma | src/practica5.py:84-108 | the output is the binary threshold of the gray plane at the threshold Isodata ends on from 128 (the one threshold described under Segmentation.Isodata) |
| Morphology.ObtenerKernel | src/practica6.py:3-6 | the structuring element is a full k×k block of ones |
| Morphology.ErodeAtWindow | src/practica6.py:8-10 | the erosion at a pixel is at most every in-image sample of its k×k window and equals one of them |
| Morphology.DilateAtWindow | src/practica6.py:12-14 | the dilation at a pixel is at least every in-image sample of its k×k window and equals one of them |
| Morphology.Erosion | src/practica6.py:8-10 | same geometry; every sample is the minimum over its k×k window |
| Morphology.Dilatacion | src/practica6.py:12-14 | same geometry; every sample is the maximum over its k×k window |
| Morphology.ErosionDilatacionBracket | src/practica6.py:8-14 | erosion <= the pixel <= dilation |
| Morphology.Apertura | src/practica6.py:16-19 | every sample is the dilation of the erosion |
| Morphology.AperturaAntiExtensive | src/practica6.py:16-19 | for odd k, erosion <= opening <= the pixel |
| Morphology.Cierre | src/practica6.py:21-24 | every sample is the erosion of the dilation |
| Morphology.CierreExtensive | src/practica6.py:21-24 | for odd k, the pixel <= closing <= dilation |
| Morphology.Gradiente | src/practica6.py:26-30 | same geometry; every sample is the saturating difference of the dilation and the erosion |
| Morphology.GradienteExact | src/practica6.py:26-30 | the saturation never clips: the gradient is exactly dilation minus erosion, so it is never negative |
| Frequency.CutoffRadius | src/practica7.py:60-65 | d0 = cutoff * min(rows//2, cols//2), replaced by 1e-8 when it is 0, so it is never 0 |
| Frequency.SliderCutoff | src/practica7.py:60-65 | for a cutoff of 0..100 percent the radius is positive: that fraction of min(rows//2, cols//2), so at most it, or 1e-8 when the product is 0 |
| Frequency.Ratio2Monotone | src/practica7.py:80-82 | the normalised squared distance D²/d0² grows with the distance |
| Frequency.IdealMask | src/practica7.py:67-72 | fills a rows×cols array with 1 exactly inside the disc D² <= d0² for low-pass (outside for high-pass), 0 elsewhere |
| Frequency.ButterworthShape | src/practica7.py:80-82 | 1/(1 + (D²/d0²)^orden) lies in (0,1], is 1 at the centre and does not increase with distance |
| Frequency.Mascara | src/practica7.py:51-86 | defined exactly for the three families; a rows×cols mask; Ideal is low-pass exactly for "Bajas", Gaussian and Butterworth are high-pass exactly for "Altas" |
| Frequency.CrearMascara | src/practica7.py:51-86 | builds exactly that mask, or the error for an unknown family |
| Frequency.IdealMaskValues | src/practica7.py:67-72 | an Ideal mask entry is 0 or 1, and the low-pass one is 1 exactly inside the disc |
| Frequency.ModesComplementary | src/practica7.py:67-84 | for every family the low-pass and high-pass masks add up to 1 |
| Frequency.UnknownMode | src/practica7.py:69-84 | a mode other than "Bajas" and "Altas" gives high-pass for Ideal and low-pass for Gaussian and Butterworth |
| Frequency.GaussianRange | src/practica7.py:74-78 | with exp in (0,1] the low-pass Gaussian entry lies in (0,1] and the high-pass one in [0,1); the low-pass centre is 1 |
| Frequency.ButterworthRange | src/practica7.py:80-84 | the low-pass Butterworth entry lies in (0,1] and the high-pass one in [0,1); the low-pass centre is 1 for orden >= 1 |
| Workspace.App.constructor | interfaz.py:35-41 | both slots empty, slot 1 active and viewed |
| Workspace.App.ActualizarEstadoSwitch | interfaz.py:185-199 | when exactly one slot is loaded it becomes active; nothing else changes |
| Workspace.App.Cargar | interfaz.py:716-740 | a cancelled dialog changes nothing; a loaded image becomes orig and proc with an empty history, the slot becomes active, and it is viewed when the other slot is empty |
| Workspace.App.Borrar | interfaz.py:742-759 | deleting an empty slot changes nothing; otherwise the slot is cleared, and a loaded other slot becomes active and viewed, else view 1 is shown |
| Workspace.App.AplicarFiltro | interfaz.py:761-786 | on a loaded active slot, success pushes the old proc and stores f(proc); failure leaves the slot as it was; the other slot never changes |
| Workspace.App.Deshacer | interfaz.py:788-798 | an empty history changes nothing; otherwise the last entry is popped into proc |
| Workspace.App.ResetImagen | interfaz.py:800-806 | on a loaded active slot, pushes proc and sets proc to orig; an empty slot is unchanged |
| Workspace.App.OperacionDual | interfaz.py:373-397 | with both slots loaded and the dialog confirmed, applies the operation with the other slot's proc as second operand; otherwise nothing changes |
| Workspace.ApplyThenUndo | interfaz.py:761-798 | undo right after a successful apply restores the workspace exactly |
| Workspace.ResetThenUndo | interfaz.py:788-806 | undo right after a reset restores the workspace exactly |
| Workspace.LoadThenDelete | interfaz.py:716-759 | loading a slot and deleting it leaves that slot empty and the other slot as it was |

## Left out

- RGB-to-gray conversion (`cv2.cvtColor`) is the parameter `luma`, and the HSV colour branch of the LUT routine is the parameter `vLut`; both are library internals.
- Otsu's threshold computation is not modelled. `Segmentation.SegMultiumbral` takes the first threshold as an input.
- Segmentation.ApplyLut: the colour branch (RGB to HSV, table on V, back to RGB) is only passed through `vLut`, so nothing is proved about colour results.
- Arith.PrepararImgSecundaria: `cv2.resize` uses bilinear interpolation; the model uses nearest neighbour. Only its shape, its kind and its identity on equal sizes are meant to match.
- Arith.SumarEscalar and Arith.RestarEscalar take an integer scalar; the dialog accepts fractions, which OpenCV rounds before adding.
- Arith.MultiplicarEscalar: uses exact rationals where the source uses floating point, so a value can differ by one where float rounding falls across an integer.
- Segmentation.ContractEntryExact: uses exact rationals where the source uses floating point, so a value can differ by one where float rounding falls across an integer.
- Segmentation.ContractTableEnds: uses exact rationals where the source uses floating point, so a value can differ by one where float rounding falls across an integer (for the table ends, just below the whole number that exact arithmetic gives).
- Segmentation.StretchTableProperties: uses exact rationals where the source uses floating point, so a value can differ by one where float rounding falls across an integer.
- Segmentation.ExpansionGrayEnds: uses exact rationals where the source uses floating point, so a value can differ by one where float rounding falls across an integer (for the table ends, just below the whole number that exact arithmetic gives).
- Segmentation.Isodata: uses exact rationals where the source uses floating point, so a value can differ by one where float rounding falls across an integer.
- Morphology.AperturaAntiExtensive and Morphology.CierreExtensive are proved for odd k only (the kernel control offers only odd sizes); with an even k the anchored window is not symmetric and the properties can fail.
- Segmentation.ExpansionHistograma: an empty image, whose minimum and maximum the source cannot take, comes back unchanged.
- Filters.FiltroKirsch is modelled on the gray plane; correlation (`filter2D`), reflect-101 borders and saturation are written out for 3×3 kernels only.
- The weighted-average convolution itself, the median filter, the box, Gaussian and bilateral blurs, and the Sobel, Prewitt, Roberts, Canny and Laplacian detectors are library numerics. Only the kernel choice and the median size rule are modelled.
- Frequency.Mascara: the cutoff is the slider's integer percentage (1..100) rather than an arbitrary float, the Gaussian `exp` is the parameter `expNeg`, and `orden` is a natural number.
- Frequency.IdealMask compares squared distances in integers. The source compares a float square root with d0. The two agree in exact arithmetic.
- FFTs, spectra, `postprocesar_imagen` and applying the mask to a spectrum are floating-point numerics.
- Colour maps, HSV views, adaptive thresholding, Kapur's entropy search, equalisations and transfer curves (gamma, power, log, exponential, Rayleigh, cube root), noise generators, connected components and contours are library work, floats or randomness.
- Workspace.App.Cargar: the file dialog and image reader are the parameter `file`; a read failure is the cancelled case, and the BGR-to-RGB conversion is not modelled.
- Workspace.App.AplicarFiltro: the transform is total (`Result`), so an exception raised by rendering after `proc` was replaced (interfaz.py:783) is not modelled.
- Widgets, view buttons, rendering, histograms, the colour picker and saving images are UI and I/O.
