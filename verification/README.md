# Triangle viewer: coordinate entry and geometry

A model of the two pieces of logic in the triangle viewer.

- **Coordinate entry** (module `App`, `app.dfy`). The user types six numbers, x1, y1, x2, y2, x3, y3, one at a time into a text buffer. Return parses the buffer and appends the value. After the sixth value the program switches from `Entry` to `View` and draws the triangle; Return in `View` starts over.
  - The model is an immutable `Model` record with pure transition functions: `Backspace`, `TextEntry`, `Submit` and `Reset`.
  - `OnEvent` is the event dispatcher, and `Run` folds it over a sequence of events.
  - `Valid` is the reachable-state invariant. It is what keeps the prompt label index in bounds while entering, and the six coordinate reads in bounds while viewing.
- **Number syntax** (module `FloatSyntax`, `floatsyntax.dfy`). This is Rust's decimal grammar for `f32::from_str`, restricted to the characters the prompt accepts. It is used to characterise exactly which buffers Return can submit.
- **Geometry** (module `Calc`, `calc.dfy`). It covers:
  - the fit-to-viewport transform `view_transform`;
  - side lengths;
  - shoelace area;
  - perimeter.

  Computation is over exact `real`s, and the bounding box is the min/max box of the three vertices, stored as centre and size.
- **Wrappers** (`wrappers.dfy`) holds `Option`.

Two calls into the Rust standard library become parameters:
- `buf.parse::<f32>()` is a `Parser`, a function `string -> Option<real>`;
- `f32::sqrt` is a function `sqrt: real -> real`.

Properties that need `sqrt` to be a square root assume so only at the three squared side lengths at hand (`Calc.RootsAt`). Properties that need the parser to follow Rust's number syntax say so in their preconditions.

## Model

| member | source | states |
|---|---|---|
| App.Init | src/main.rs:23-30 | The initial model is entering the first coordinate, holds none, and satisfies the reachable-state invariant. |
| App.Backspace | src/main.rs:52-57 | Removes exactly the last character of a non-empty buffer, and does nothing on an empty one. It never touches the coordinates or the state, and it keeps the invariant: removing the point clears `has_point`, and removing anything else keeps it. |
| App.TextEntry | src/main.rs:70-81 | Appends the character exactly when it is a digit, a `-` into an empty buffer, or a `.` when there is none yet; otherwise the model is unchanged. Typing the point sets `has_point`. While entering, it keeps the invariant: `-` only in front, at most one `.`, and `has_point` equal to "`.` is in the buffer". |
| App.AppendKeepsWellFormed | src/main.rs:71-80 | Appending an accepted character keeps the buffer well formed, and the buffer contains `.` afterwards exactly when it did before or the character is `.`. |
| App.BackspaceUndoesTextEntry | src/main.rs:52-81 | On a valid model, backspace after an accepted keystroke restores the model exactly, including `has_point`. |
| App.Submit | src/main.rs:59-68 | A buffer that does not parse leaves the model unchanged. A parsed value is appended as exactly one coordinate, the buffer is emptied and `has_point` cleared, and the state becomes `View` exactly when six coordinates are held. While entering, it keeps the invariant. |
| App.DecimalIffHasDigit | src/main.rs:60 | On any buffer text entry can produce, Rust's number syntax holds if and only if the buffer contains a digit, so only "", "-", "." and "-." are rejected. |
| App.SubmitAppendsIffDigit | src/main.rs:59-68 | With a parser that follows Rust's number syntax, Return while entering appends a coordinate if and only if the buffer contains a digit; otherwise nothing changes. |
| App.Reset | src/main.rs:83-86 | Empties the coordinates and returns to `Entry`, leaves the buffer and `has_point` as they are, and keeps the invariant. |
| App.OnEvent | src/main.rs:32-50 | In `View`, every event but Return leaves the model unchanged, and Return empties the coordinates and returns to `Entry`. In `Entry`, the coordinates are only ever extended by at most one, and `View` is entered only on Return with exactly six. Every event keeps the invariant. |
| App.Run | src/main.rs:32-50 | Handling any sequence of events from a valid model yields a valid model, so every reachable model satisfies the invariant. |
| App.RunAppend | src/main.rs:32-50 | Handling two event sequences in turn is the same as handling their concatenation. |
| App.RunTwo | src/main.rs:32-50 | Handling two events is handling the first and then the second. |
| App.EnterOneAppends | src/main.rs:59-81 | Typing `1` and Return into an empty buffer appends one coordinate, and the sixth switches to `View`. |
| App.SixEntriesReachView | src/main.rs:23-81 | From the start, entering `1` six times reaches `View` with six coordinates and an empty buffer. |
| App.PromptLabel | src/main.rs:116-119 | In every valid entering model, the number of coordinates held is a valid index into the six prompt labels. |
| App.ViewTriangle | src/main.rs:137-141 | In every valid viewing model, the six coordinate reads are in bounds, and the triangle's coordinates in entry order are exactly the entered ones. |
| App.DrawnVerticesInView | src/main.rs:137-143 | While viewing, each vertex of the entered triangle is mapped inside the drawing area, unless all three vertices coincide. |
| FloatSyntax.DecimalAccepts | src/main.rs:60 | "12", "-3", "+5", "1.", ".5" and "-.5" are numbers in Rust's syntax. |
| FloatSyntax.DecimalRejects | src/main.rs:60 | "", "-", ".", "-." and "1-" are not numbers in Rust's syntax. |
| Calc.BoundingRect | src/calc.rs:9 | The bounding box has non-negative size and holds all three vertices. Each of its edges passes through a vertex, so it is the smallest such box. |
| Calc.PointBoxIffCoincide | src/calc.rs:9-14 | The bounding box has zero width and zero height exactly when all three vertices coincide. This is the only case in which the ratio divisions leave no positive maximum. |
| Calc.Fit | src/calc.rs:11-19 | The scale is positive. The box centre maps onto the view centre in x and y, and the depth offset is 0. The scaled box fits inside the view, and it fills the view along the axis whose ratio is larger. |
| Calc.ViewTransform | src/calc.rs:8-20 | For a positive-size view and a triangle whose vertices do not all coincide, the transform fits the triangle's bounding box into the view, with all the properties of `Fit`. |
| Calc.PointInView | src/calc.rs:16-19 | A transform that fits a box into the view maps every point of the box into the view. |
| Calc.TransformKeepsVerticesInView | src/calc.rs:8-20 | All three vertices, mapped as `point * scale + translate`, land inside the view. |
| Calc.ScaleIsLargest | src/calc.rs:11-14 | No uniform scale larger than that of a fitting transform keeps the box inside the view. |
| Calc.ScaleIsLargestFit | src/calc.rs:11-14 | The scale chosen by `view_transform` is the largest that keeps the bounding box inside the view. |
| Calc.FitExample | src/calc.rs:11-19 | A 10 by 5 box centred at (5, 2.5), fitted into a 100 by 50 view centred at the origin, gets scale 10 and offset (-50, -25, 0). |
| Calc.ViewTransformExample | src/calc.rs:8-20 | For the triangle (0,0), (10,0), (0,5) and that view, the transform is scale 10 with offset (-50, -25, 0), so the box centre maps to the origin. |
| Calc.Area | src/calc.rs:39 | The area is never negative. |
| Calc.CrossTerms | src/calc.rs:39 | The shoelace sum equals the six-product expansion a.x·b.y − a.x·c.y + b.x·c.y − b.x·a.y + c.x·a.y − c.x·b.y. |
| Calc.AreaZeroIffCollinear | src/calc.rs:34-40 | The area is zero if and only if the three vertices lie on one line, including when two of them coincide. |
| Calc.CrossSwap | src/calc.rs:39 | Swapping the last two vertices negates the shoelace sum. |
| Calc.CrossRotate | src/calc.rs:39 | Rotating the vertices (A, B, C to B, C, A) keeps the shoelace sum. |
| Calc.AreaPermutationInvariant | src/calc.rs:34-40 | Listing the vertices in any of the six orders gives the same area. |
| Calc.SqDist | src/calc.rs:28-30 | The squared distance is never negative, and it is zero exactly when the two points coincide. |
| Calc.SideSymmetric | src/calc.rs:28-30 | The length from p to q equals the length from q to p. |
| Calc.LineSegments | src/calc.rs:22-32 | Computes the lengths of sides AB, BC and CA, in that order, each as the square root of the squared distance between its endpoints. When `sqrt` is the square root at those three values, each side is non-negative, and AB is zero exactly when A = B, and likewise BC and CA. |
| Calc.PermutedSides | src/calc.rs:22-32 | The side lengths of a reordered triangle are the original side lengths, reordered as the permutation dictates. |
| Calc.SegmentsPermutation | src/calc.rs:22-32 | Reordering the vertices gives the same three side lengths as a multiset. |
| Calc.PerimeterPermutationInvariant | src/calc.rs:42-46 | Listing the vertices in any order gives the same perimeter. |
| Calc.Perimeter | src/calc.rs:42-46 | Computes the sum AB + BC + CA of the three `LineSegments` values. When `sqrt` is the square root at the three squared lengths, the perimeter is never negative, and it is zero exactly when all three vertices coincide. |
| Calc.RightTriangleExample | src/calc.rs:22-46 | For the triangle (0,0), (4,0), (0,3), the sides AB, BC, CA are 4, 5 and 3, the perimeter is 12, and the area is 6. |

## Left out

- Floating point: `f32` rounding, overflow to infinity and NaN are not modelled; all geometry is exact real arithmetic.
- Calc.ViewTransform: requires a view of positive width and height, and a triangle whose vertices do not all coincide. In the program, these cases divide by zero and yield infinite or NaN results. The drawing area can also have non-positive height when the window is shorter than the top bar plus padding.
- `f32::sqrt` is a parameter. The side-length properties assume it returns the non-negative square root, and only at the three squared lengths used.
- `str::parse::<f32>` is a parameter. `SubmitAppendsIffDigit` assumes it accepts exactly Rust's number syntax. Which value it returns for a string (the decimal-to-binary rounding) is not modelled.
- The number grammar takes a leading `+` or `-` sign, although only `-` can be typed. It leaves out exponents, `inf`, `infinity` and `nan`, none of which can be typed into the prompt.
- Rendering in `view` (src/main.rs:97-190) is not modelled: colours, fonts, the top bar layout, ellipses, the label offset and the text formatting. Only its index uses, its vertex mapping (`Calc.Apply`) and the prompt label lookup are kept.
- The nannou application and window wiring (src/main.rs:6-8) is not modelled. Window events other than key presses and received characters are the single event `Other`.
- nannou's `Tri` and `Rect` are modelled only as three points, and as the centre and size of the min/max bounding box.
